/** What the display client makes of any JSON message: which ones it reads as what, the outcome it
    reports, and what an accepted message leaves in the state. */
module ReducerMeaning {
  import opened Results
  import opened Js
  import opened Reducer
  import opened Sequences
  import SnapshotTree

  // ----- objects by their fields -----

  /** No name occurs twice in an object, as after any JSON parser. */
  predicate UniqueNames(v: Value) {
    v.Object? ==> forall i, j :: 0 <= i < j < |v.fields| ==> v.fields[i].name != v.fields[j].name
  }

  /** An object with exactly these fields, in any order. */
  ghost predicate ConsistsOf(v: Value, fields: seq<Field>) {
    v.Object? && forall f :: f in v.fields <==> f in fields
  }

  predicate HasValues(v: Value, fields: seq<Field>) {
    forall i :: 0 <= i < |fields| ==> Get(v, fields[i].name) == Some(fields[i].value)
  }

  function Names(fields: seq<Field>): (names: seq<string>)
    ensures |names| == |fields| && forall i :: 0 <= i < |names| ==> names[i] == fields[i].name
  {
    seq(|fields|, i requires 0 <= i < |fields| => fields[i].name)
  }

  lemma {:induction false} FindIsMember(fields: seq<Field>, name: string)
    requires forall i, j :: 0 <= i < j < |fields| ==> fields[i].name != fields[j].name
    ensures forall value :: Find(fields, name) == Some(value) <==> Field(name, value) in fields
  {
    if fields != [] {
      var rest := fields[1..];
      assert fields == [fields[0]] + rest;
      forall i, j | 0 <= i < j < |rest| ensures rest[i].name != rest[j].name {
        assert rest[i] == fields[i + 1] && rest[j] == fields[j + 1];
      }
      FindIsMember(rest, name);
      if fields[0].name == name {
        forall value | Field(name, value) in fields ensures value == fields[0].value {
          var k :| 0 <= k < |fields| && fields[k] == Field(name, value);
          assert k == 0;
        }
      } else {
        forall value ensures Field(name, value) in fields <==> Field(name, value) in rest {
        }
      }
    }
  }

  /** Given names that differ, an object consists of fields exactly when it has the keys and values. */
  lemma ConsistsExactly(v: Value, fields: seq<Field>, names: seq<string>)
    requires UniqueNames(v) && names == Names(fields)
    requires forall i, j :: 0 <= i < j < |fields| ==> fields[i].name != fields[j].name
    ensures ConsistsOf(v, fields)
       <==> HasExactKeys(v, names, []) && HasValues(v, fields)
  {
    if v.Object? {
      forall name, value ensures Get(v, name) == Some(value) <==> Field(name, value) in v.fields {
        FindIsMember(v.fields, name);
      }
      assert names + [] == names;
      if ConsistsOf(v, fields) {
        forall i | 0 <= i < |fields| ensures Get(v, fields[i].name) == Some(fields[i].value) {
          assert fields[i] in fields && fields[i] == Field(fields[i].name, fields[i].value);
        }
        forall i | 0 <= i < |v.fields| ensures v.fields[i].name in names {
          assert v.fields[i] in fields;
          var k :| 0 <= k < |fields| && fields[k] == v.fields[i];
          assert names[k] == v.fields[i].name;
        }
        forall key | key in names ensures Get(v, key).Some? {
          var k :| 0 <= k < |names| && names[k] == key;
        }
      }
      if HasExactKeys(v, names, []) && HasValues(v, fields) {
        forall f ensures f in v.fields <==> f in fields {
          if f in v.fields {
            var i :| 0 <= i < |v.fields| && v.fields[i] == f;
            assert f.name in names;
            var k :| 0 <= k < |names| && names[k] == f.name;
            assert Get(v, f.name) == Some(f.value) && f == Field(f.name, f.value);
            assert fields[k] == Field(f.name, f.value);
          }
          if f in fields {
            var k :| 0 <= k < |fields| && fields[k] == f;
            assert f == Field(f.name, f.value);
          }
        }
      }
    }
  }

  // ----- numbers and names -----

  predicate IsNumber(v: Value, n: int) {
    v == Num(Finite(n as real))
  }

  lemma IntegersExactly(v: Value, n: nat)
    ensures ExactInteger(Some(v)) == Some(n) <==> 0 < n <= 9007199254740991 && IsNumber(v, n)
  {
  }

  /** A 16-bit number; minus zero counts as zero. */
  predicate IsPart(v: Value, n: nat) {
    n <= 65535 && (IsNumber(v, n) || (n == 0 && v == Num(NegativeZero)))
  }

  lemma PartsExactly(v: Value, n: nat)
    ensures VersionPart(Some(v)) == Some(n) <==> IsPart(v, n)
  {
  }

  ghost predicate IsProtocol(v: Value, p: Protocol) {
    exists major, minor :: IsPart(major, p.major) && IsPart(minor, p.minor)
      && ConsistsOf(v, [Field("major", major), Field("minor", minor)])
  }

  lemma ProtocolsExactly(v: Value, p: Protocol)
    requires UniqueNames(v)
    ensures ReadProtocol(Some(v)) == Some(p) <==> IsProtocol(v, p)
  {
    forall major, minor
      ensures ConsistsOf(v, [Field("major", major), Field("minor", minor)])
         <==> HasExactKeys(v, ["major", "minor"], [])
              && Get(v, "major") == Some(major) && Get(v, "minor") == Some(minor)
    {
      var fields := [Field("major", major), Field("minor", minor)];
      assert Names(fields) == ["major", "minor"] && "major"[1] != "minor"[1];
      ConsistsExactly(v, fields, ["major", "minor"]);
      assert fields[0].name == "major" && fields[1].name == "minor";
    }
    if HasExactKeys(v, ["major", "minor"], []) {
      assert "major" in ["major", "minor"] && "minor" in ["major", "minor"];
      var major, minor := Get(v, "major").value, Get(v, "minor").value;
      PartsExactly(major, p.major);
      PartsExactly(minor, p.minor);
    }
    if major, minor :| IsPart(major, p.major) && IsPart(minor, p.minor)
                       && ConsistsOf(v, [Field("major", major), Field("minor", minor)]) {
      PartsExactly(major, p.major);
      PartsExactly(minor, p.minor);
    }
  }

  predicate IsWord(w: string) {
    w != [] && forall i :: 0 <= i < |w| ==> 'a' <= w[i] <= 'z' || '0' <= w[i] <= '9'
  }

  function Joined(words: seq<string>): string
    requires words != []
  {
    if |words| == 1 then words[0] else words[0] + "_" + Joined(words[1..])
  }

  /** Words of lower-case letters and digits with single underscores between them. */
  ghost predicate IsJoined(s: string) {
    exists words :: words != [] && (forall w :: w in words ==> IsWord(w)) && s == Joined(words)
  }

  /** The shape that the test for capability names looks at, without the length. */
  predicate HasShape(s: string) {
    && s != []
    && (forall i :: 0 <= i < |s| ==> IsNameChar(s[i]) || s[i] == '_')
    && s[0] != '_' && s[|s| - 1] != '_'
    && (forall i :: 0 <= i < |s| - 1 ==> s[i] != '_' || s[i + 1] != '_')
  }

  lemma ShapeOfTwo(w: string, rest: string)
    requires IsWord(w) && HasShape(rest)
    ensures HasShape(w + "_" + rest)
  {
    var s := w + "_" + rest;
    forall i | 0 <= i < |s| - 1 ensures s[i] != '_' || s[i + 1] != '_' {
      if i > |w| { assert s[i] == rest[i - |w| - 1] && s[i + 1] == rest[i - |w|]; }
    }
  }

  lemma {:induction false} JoinedHasShape(words: seq<string>)
    requires words != [] && forall w :: w in words ==> IsWord(w)
    ensures HasShape(Joined(words))
  {
    assert words[0] in words;
    if |words| > 1 {
      assert forall w :: w in words[1..] ==> w in words;
      JoinedHasShape(words[1..]);
      ShapeOfTwo(words[0], Joined(words[1..]));
    }
  }

  function FirstMark(s: string): (n: nat)
    ensures n <= |s| && (n < |s| ==> s[n] == '_') && forall i :: 0 <= i < n ==> s[i] != '_'
  {
    if s == [] || s[0] == '_' then 0 else 1 + FirstMark(s[1..])
  }

  lemma {:induction false} ShapeIsJoined(s: string) returns (words: seq<string>)
    requires HasShape(s)
    ensures words != [] && (forall w :: w in words ==> IsWord(w)) && s == Joined(words)
    decreases |s|
  {
    var n := FirstMark(s);
    if n == |s| {
      words := [s];
    } else {
      var w, rest := s[..n], s[n + 1..];
      assert n > 0 && n < |s| - 1;
      assert rest[0] == s[n + 1] && rest[|rest| - 1] == s[|s| - 1];
      forall i | 0 <= i < |rest| - 1 ensures rest[i] != '_' || rest[i + 1] != '_' {
        assert rest[i] == s[n + 1 + i] && rest[i + 1] == s[n + 1 + i + 1];
      }
      var more := ShapeIsJoined(rest);
      words := [w] + more;
      assert words[1..] == more && s == w + "_" + rest;
    }
  }

  lemma CapabilityNamesExactly(s: string)
    ensures IsCapabilityName(s) <==> |s| <= 64 && IsJoined(s)
  {
    if IsCapabilityName(s) {
      var words := ShapeIsJoined(s);
    }
    if words :| words != [] && (forall w :: w in words ==> IsWord(w)) && s == Joined(words) {
      JoinedHasShape(words);
    }
  }

  // ----- what is read as what -----

  /** At most 32 different names of at most 64 characters. */
  ghost predicate IsCapabilityList(v: Value, names: seq<string>) {
    && v.Array? && |v.items| == |names| <= 32 && Distinct(names)
    && forall i :: 0 <= i < |names| ==> v.items[i] == Str(names[i]) && |names[i]| <= 64 && IsJoined(names[i])
  }

  lemma {:induction false} TextsExactly(items: seq<Value>, names: seq<string>)
    ensures Texts(items) == Some(names)
       <==> |items| == |names| && forall i :: 0 <= i < |items| ==> items[i] == Str(names[i])
  {
    if items != [] && names != [] {
      TextsExactly(items[1..], names[1..]);
      if |items| == |names| && forall i :: 0 <= i < |items| ==> items[i] == Str(names[i]) {
        assert names == [names[0]] + names[1..];
      }
      if Texts(items) == Some(names) {
        assert names[1..] == Texts(items[1..]).value;
      }
    }
  }

  lemma CapabilitiesExactly(v: Value, names: seq<string>)
    ensures ReadCapabilities(Some(v)) == Some(names) <==> IsCapabilityList(v, names)
  {
    if v.Array? {
      TextsExactly(v.items, names);
      forall i | 0 <= i < |names| ensures IsCapabilityName(names[i]) <==> |names[i]| <= 64 && IsJoined(names[i]) {
        CapabilityNamesExactly(names[i]);
      }
    }
  }

  predicate IsHexSession(s: string) {
    |s| == 32 && forall c :: c in s ==> '0' <= c <= '9' || 'a' <= c <= 'f'
  }

  ghost predicate ReadsPong(m: Value, id: nat) {
    && 0 < id <= 9007199254740991
    && ConsistsOf(m, [Field("type", Str("pong")), Field("request_id", Num(Finite(id as real)))])
  }

  lemma TypeDecides(provider: Value -> bool, m: Value)
    ensures Parse(provider, m).Pong? ==> Get(m, "type") == Some(Str("pong"))
    ensures Parse(provider, m).ActionProgress? ==> Get(m, "type") == Some(Str("action_progress"))
    ensures Parse(provider, m).Snapshot? ==> Get(m, "type") == Some(Str("snapshot"))
    ensures Parse(provider, m).Error? ==> Get(m, "type") == Some(Str("compatibility_error"))
    ensures Parse(provider, m).Hello? ==> Get(m, "type") == Some(Str("hello"))
  {
  }

  lemma PongsExactly(provider: Value -> bool, m: Value, id: nat)
    requires UniqueNames(m)
    ensures Parse(provider, m) == Pong(id) <==> ReadsPong(m, id)
  {
    var fields := [Field("type", Str("pong")), Field("request_id", Num(Finite(id as real)))];
    assert Names(fields) == ["type", "request_id"] && |"type"| != |"request_id"|;
    ConsistsExactly(m, fields, ["type", "request_id"]);
    assert fields[0].name == "type" && fields[1].name == "request_id";
    TypeDecides(provider, m);
    if HasExactKeys(m, ["type", "request_id"], []) {
      assert "request_id" in ["type", "request_id"];
      IntegersExactly(Get(m, "request_id").value, id);
    }
  }

  function StateText(p: Progress): string {
    match p
    case Issued => "issued"
    case Queued => "queued"
    case Running => "running"
    case Completed => "completed"
    case Failed => "failed"
    case Cancelled => "cancelled"
  }

  ghost predicate ReadsProgress(m: Value, id: nat, p: Progress) {
    && 0 < id <= 9007199254740991 && !p.Issued?
    && ConsistsOf(m, [Field("type", Str("action_progress")), Field("request_id", Num(Finite(id as real))),
                      Field("state", Str(StateText(p)))])
  }

  lemma StatesExactly(v: Value, p: Progress)
    ensures ReadProgress(Some(v)) == Some(p) <==> !p.Issued? && v == Str(StateText(p))
  {
  }

  lemma ProgressExactly(provider: Value -> bool, m: Value, id: nat, p: Progress)
    requires UniqueNames(m)
    ensures Parse(provider, m) == ActionProgress(id, p) <==> ReadsProgress(m, id, p)
  {
    var names := ["type", "request_id", "state"];
    var fields := [Field("type", Str("action_progress")), Field("request_id", Num(Finite(id as real))),
                   Field("state", Str(StateText(p)))];
    assert Names(fields) == names && |"type"| != |"request_id"| && |"type"| != |"state"|;
    ConsistsExactly(m, fields, names);
    assert fields[0].name == "type" && fields[1].name == "request_id" && fields[2].name == "state";
    TypeDecides(provider, m);
    if HasExactKeys(m, names, []) {
      assert "request_id" in names && "state" in names;
      IntegersExactly(Get(m, "request_id").value, id);
      StatesExactly(Get(m, "state").value, p);
    }
  }

  ghost predicate ReadsSnapshot(provider: Value -> bool, m: Value, sequence: nat, payload: Value) {
    && 0 < sequence <= 9007199254740991 && ValidEnvelope(provider, payload)
    && ConsistsOf(m, [Field("type", Str("snapshot")), Field("sequence", Num(Finite(sequence as real))),
                      Field("snapshot", payload)])
  }

  lemma SnapshotsExactly(provider: Value -> bool, m: Value, sequence: nat, payload: Value)
    requires UniqueNames(m)
    ensures Parse(provider, m) == Snapshot(sequence, payload) <==> ReadsSnapshot(provider, m, sequence, payload)
  {
    var names := ["type", "sequence", "snapshot"];
    var fields := [Field("type", Str("snapshot")), Field("sequence", Num(Finite(sequence as real))),
                   Field("snapshot", payload)];
    assert Names(fields) == names && |"type"| != |"sequence"| && "sequence"[1] != "snapshot"[1];
    ConsistsExactly(m, fields, names);
    assert fields[0].name == "type" && fields[1].name == "sequence" && fields[2].name == "snapshot";
    TypeDecides(provider, m);
    if HasExactKeys(m, names, []) {
      assert "sequence" in names && "snapshot" in names;
      IntegersExactly(Get(m, "sequence").value, sequence);
    }
  }

  ghost predicate ReadsError(m: Value, code: string, p: Protocol) {
    && code in {"unsupported_protocol_major", "hello_required", "protocol_violation"}
    && exists supported :: IsProtocol(supported, p)
         && ConsistsOf(m, [Field("type", Str("compatibility_error")), Field("code", Str(code)),
                           Field("supported", supported)])
  }

  lemma ErrorFields(m: Value, code: string, supported: Value)
    requires UniqueNames(m)
    ensures ConsistsOf(m, [Field("type", Str("compatibility_error")), Field("code", Str(code)),
                           Field("supported", supported)])
       <==> HasExactKeys(m, ["type", "code", "supported"], []) && Get(m, "type") == Some(Str("compatibility_error"))
            && Get(m, "code") == Some(Str(code)) && Get(m, "supported") == Some(supported)
  {
    var names := ["type", "code", "supported"];
    var fields := [Field("type", Str("compatibility_error")), Field("code", Str(code)), Field("supported", supported)];
    assert Names(fields) == names && "type"[0] != "code"[0] && |"code"| != |"supported"|;
    ConsistsExactly(m, fields, names);
    assert fields[0].name == "type" && fields[1].name == "code" && fields[2].name == "supported";
  }

  lemma ErrorsExactly(provider: Value -> bool, m: Value, code: string, p: Protocol)
    requires UniqueNames(m) && (Get(m, "supported").Some? ==> UniqueNames(Get(m, "supported").value))
    ensures Parse(provider, m) == Error(code, p) <==> ReadsError(m, code, p)
  {
    TypeDecides(provider, m);
    var names := ["type", "code", "supported"];
    if Parse(provider, m) == Error(code, p) {
      assert "supported" in names;
      var supported := Get(m, "supported").value;
      ErrorFields(m, code, supported);
      ProtocolsExactly(supported, p);
    }
    if ReadsError(m, code, p) {
      var supported :| IsProtocol(supported, p)
        && ConsistsOf(m, [Field("type", Str("compatibility_error")), Field("code", Str(code)),
                          Field("supported", supported)]);
      ErrorFields(m, code, supported);
      ProtocolsExactly(supported, p);
    }
  }

  ghost predicate ReadsHello(m: Value, p: Protocol, streamId: string, names: seq<string>) {
    && IsHexSession(streamId)
    && exists protocol, capabilities :: IsProtocol(protocol, p) && IsCapabilityList(capabilities, names)
         && ConsistsOf(m, [Field("type", Str("hello")), Field("protocol", protocol),
                           Field("stream_id", Str(streamId)), Field("capabilities", capabilities)])
  }

  lemma HelloFields(m: Value, protocol: Value, streamId: string, capabilities: Value)
    requires UniqueNames(m)
    ensures ConsistsOf(m, [Field("type", Str("hello")), Field("protocol", protocol),
                           Field("stream_id", Str(streamId)), Field("capabilities", capabilities)])
       <==> && HasExactKeys(m, ["type", "protocol", "stream_id", "capabilities"], [])
            && Get(m, "type") == Some(Str("hello")) && Get(m, "protocol") == Some(protocol)
            && Get(m, "stream_id") == Some(Str(streamId)) && Get(m, "capabilities") == Some(capabilities)
  {
    var names := ["type", "protocol", "stream_id", "capabilities"];
    var fields := [Field("type", Str("hello")), Field("protocol", protocol),
                   Field("stream_id", Str(streamId)), Field("capabilities", capabilities)];
    assert |"type"| == 4 && |"protocol"| == 8 && |"stream_id"| == 9 && |"capabilities"| == 12;
    assert Names(fields) == names;
    ConsistsExactly(m, fields, names);
    assert fields[0].name == "type" && fields[1].name == "protocol";
    assert fields[2].name == "stream_id" && fields[3].name == "capabilities";
  }

  lemma SessionsExactly(s: string)
    ensures IsSessionId(s) <==> IsHexSession(s)
  {
    if IsHexSession(s) {
      forall i | 0 <= i < |s| ensures IsLowerHex(s[i]) {
        assert s[i] in s;
      }
    }
  }

  lemma HelloOfFields(
    provider: Value -> bool, m: Value, protocol: Value, capabilities: Value, p: Protocol, streamId: string,
    names: seq<string>)
    requires UniqueNames(m) && ReadProtocol(Some(protocol)) == Some(p) && IsSessionId(streamId)
    requires ReadCapabilities(Some(capabilities)) == Some(names)
    requires ConsistsOf(m, [Field("type", Str("hello")), Field("protocol", protocol),
                            Field("stream_id", Str(streamId)), Field("capabilities", capabilities)])
    ensures Parse(provider, m) == Hello(p, streamId, names)
  {
    HelloFields(m, protocol, streamId, capabilities);
  }

  lemma FieldsOfHello(provider: Value -> bool, m: Value) returns (protocol: Value, capabilities: Value)
    requires UniqueNames(m) && Parse(provider, m).Hello?
    ensures Get(m, "protocol") == Some(protocol) && IsSessionId(Parse(provider, m).streamId)
    ensures ReadProtocol(Some(protocol)) == Some(Parse(provider, m).protocol)
    ensures ReadCapabilities(Some(capabilities)) == Some(Parse(provider, m).capabilities)
    ensures ConsistsOf(m, [Field("type", Str("hello")), Field("protocol", protocol),
                           Field("stream_id", Str(Parse(provider, m).streamId)), Field("capabilities", capabilities)])
  {
    TypeDecides(provider, m);
    var keys := ["type", "protocol", "stream_id", "capabilities"];
    assert keys[1] in keys && keys[3] in keys;
    protocol, capabilities := Get(m, "protocol").value, Get(m, "capabilities").value;
    HelloFields(m, protocol, Parse(provider, m).streamId, capabilities);
  }

  lemma HellosExactly(provider: Value -> bool, m: Value, p: Protocol, streamId: string, names: seq<string>)
    requires UniqueNames(m) && (Get(m, "protocol").Some? ==> UniqueNames(Get(m, "protocol").value))
    ensures Parse(provider, m) == Hello(p, streamId, names) <==> ReadsHello(m, p, streamId, names)
  {
    SessionsExactly(streamId);
    if Parse(provider, m) == Hello(p, streamId, names) {
      var protocol, capabilities := FieldsOfHello(provider, m);
      ProtocolsExactly(protocol, p);
      CapabilitiesExactly(capabilities, names);
    }
    if ReadsHello(m, p, streamId, names) {
      var protocol, capabilities :| IsProtocol(protocol, p) && IsCapabilityList(capabilities, names)
        && ConsistsOf(m, [Field("type", Str("hello")), Field("protocol", protocol),
                          Field("stream_id", Str(streamId)), Field("capabilities", capabilities)]);
      HelloFields(m, protocol, streamId, capabilities);
      ProtocolsExactly(protocol, p);
      CapabilitiesExactly(capabilities, names);
      HelloOfFields(provider, m, protocol, capabilities, p, streamId, names);
    }
  }

  // ----- envelopes -----

  ghost predicate ReadsEnvelope(provider: Value -> bool, v: Value, generated: string, items: seq<Value>) {
    && 1 <= |Utf16(generated)| <= 64 && |items| <= 256
    && (forall i :: 0 <= i < |items| ==> provider(items[i]))
    && (ConsistsOf(v, Envelope(generated, items))
        || ConsistsOf(v, Envelope(generated, items) + [Field("privacy", Str("redacted"))]))
  }

  function Envelope(generated: string, items: seq<Value>): seq<Field> {
    [Field("schema_version", Num(Finite(1.0))), Field("generated_at", Str(generated)),
     Field("snapshots", Array(items))]
  }

  lemma PlainEnvelope(v: Value, generated: string, items: seq<Value>)
    requires UniqueNames(v)
    ensures ConsistsOf(v, Envelope(generated, items))
       <==> && HasExactKeys(v, ["schema_version", "generated_at", "snapshots"], [])
            && Get(v, "schema_version") == Some(Num(Finite(1.0))) && Get(v, "generated_at") == Some(Str(generated))
            && Get(v, "snapshots") == Some(Array(items))
  {
    var fields := Envelope(generated, items);
    assert |"schema_version"| == 14 && |"generated_at"| == 12 && |"snapshots"| == 9;
    assert Names(fields) == ["schema_version", "generated_at", "snapshots"];
    ConsistsExactly(v, fields, ["schema_version", "generated_at", "snapshots"]);
    assert fields[0].name == "schema_version" && fields[1].name == "generated_at" && fields[2].name == "snapshots";
  }

  lemma PrivateEnvelope(v: Value, generated: string, items: seq<Value>)
    requires UniqueNames(v)
    ensures ConsistsOf(v, Envelope(generated, items) + [Field("privacy", Str("redacted"))])
       <==> && HasExactKeys(v, ["schema_version", "generated_at", "snapshots", "privacy"], [])
            && Get(v, "schema_version") == Some(Num(Finite(1.0))) && Get(v, "generated_at") == Some(Str(generated))
            && Get(v, "snapshots") == Some(Array(items)) && Get(v, "privacy") == Some(Str("redacted"))
  {
    var fields := Envelope(generated, items) + [Field("privacy", Str("redacted"))];
    var names := ["schema_version", "generated_at", "snapshots", "privacy"];
    assert |"schema_version"| == 14 && |"generated_at"| == 12 && |"snapshots"| == 9 && |"privacy"| == 7;
    assert fields[0].name == "schema_version" && fields[1].name == "generated_at";
    assert fields[2].name == "snapshots" && fields[3].name == "privacy";
    assert Names(fields) == names;
    ConsistsExactly(v, fields, names);
  }

  lemma EnvelopeKeys(v: Value)
    ensures HasExactKeys(v, ["schema_version", "generated_at", "snapshots"], []) ==> Get(v, "privacy").None?
    ensures HasExactKeys(v, ["schema_version", "generated_at", "snapshots"], ["privacy"])
       <==> || (Get(v, "privacy").None? && HasExactKeys(v, ["schema_version", "generated_at", "snapshots"], []))
            || HasExactKeys(v, ["schema_version", "generated_at", "snapshots", "privacy"], [])
  {
    var three, four := ["schema_version", "generated_at", "snapshots"],
                       ["schema_version", "generated_at", "snapshots", "privacy"];
    assert three + ["privacy"] == four && three + [] == three && four + [] == four;
    assert forall key :: key in four <==> key in three || key == "privacy";
    if v.Object? {
      NamesAreFound(v.fields);
      if Get(v, "privacy").Some? {
        FoundIsThere(v.fields, "privacy");
      }
      assert |"schema_version"| == 14 && |"generated_at"| == 12 && |"snapshots"| == 9 && |"privacy"| == 7;
    }
  }

  lemma {:induction false} FoundIsThere(fields: seq<Field>, name: string)
    requires Find(fields, name).Some?
    ensures exists i :: 0 <= i < |fields| && fields[i].name == name
  {
    if fields[0].name != name {
      FoundIsThere(fields[1..], name);
      var i :| 0 <= i < |fields[1..]| && fields[1..][i].name == name;
      assert fields[i + 1].name == name;
    }
  }

  lemma {:induction false} NamesAreFound(fields: seq<Field>)
    ensures forall i :: 0 <= i < |fields| ==> Find(fields, fields[i].name).Some?
  {
    if fields != [] {
      NamesAreFound(fields[1..]);
      forall i | 0 <= i < |fields| ensures Find(fields, fields[i].name).Some? {
        if i > 0 { assert fields[i] == fields[1..][i - 1]; }
      }
    }
  }

  /** An envelope is valid exactly when it is a bounded tree of this shape and every snapshot passes. */
  lemma EnvelopesExactly(provider: Value -> bool, v: Value)
    requires UniqueNames(v)
    ensures ValidEnvelope(provider, v)
       <==> SnapshotTree.Accepted(v) && exists generated, items :: ReadsEnvelope(provider, v, generated, items)
  {
    EnvelopeKeys(v);
    if ValidEnvelope(provider, v) {
      var three := ["schema_version", "generated_at", "snapshots"];
      assert "generated_at" in three && "snapshots" in three;
      var generated, items := Get(v, "generated_at").value.chars, Get(v, "snapshots").value.items;
      PlainEnvelope(v, generated, items);
      PrivateEnvelope(v, generated, items);
      if Get(v, "privacy").Some? {
        assert "privacy" in ["schema_version", "generated_at", "snapshots", "privacy"];
      }
      assert ReadsEnvelope(provider, v, generated, items);
    }
    if generated, items :| SnapshotTree.Accepted(v) && ReadsEnvelope(provider, v, generated, items) {
      PlainEnvelope(v, generated, items);
      PrivateEnvelope(v, generated, items);
    }
  }

  // ----- the outcome -----

  /** The connection is open for snapshots. */
  predicate TakesSnapshots(s: State) {
    s.phase.Ready? && "display_snapshots" in s.capabilities
  }

  /** The message is one the client has no quarrel with at this place. */
  ghost predicate Fits(s: State, p: Message) {
    || p.Error?
    || (s.phase.AwaitingHello? && p.Hello?)
    || (TakesSnapshots(s) && p.Snapshot?)
    || (s.phase.Ready? && "action_progress" in s.capabilities && p.ActionProgress?
        && p.requestId in s.requestProgress && Moves(s.requestProgress[p.requestId], p.progress))
    || (s.phase.Ready? && p.Pong?)
  }

  /** From issued or queued to any reported state, from running to any but queued, and a final state
      only to itself. */
  predicate Moves(before: Progress, after: Progress) {
    && !after.Issued?
    && (before.Running? ==> !after.Queued?)
    && (before.Completed? || before.Failed? || before.Cancelled? ==> after == before)
  }

  /** Whatever the state and the message, exactly one of three: it is accepted, it is stale, or it
      ends the connection with an error and changes nothing. */
  lemma OutcomeIsTold(s: State, p: Message)
    ensures
      var r := Reduce(s, p);
      && r.stale == (TakesSnapshots(s) && p.Snapshot? && p.sequence <= s.lastSequence)
      && r.fatal == !Fits(s, p)
      && r.accepted == (!r.stale && !r.fatal)
      && (r.fatal <==> r.error != "")
      && r.ackSequence == (if TakesSnapshots(s) && p.Snapshot? && p.sequence >= s.lastSequence then p.sequence else 0)
      && (!r.accepted ==> r.state == s)
  {
    match p
    case ActionProgress(id, progress) =>
    case _ =>
  }

  /** A valid snapshot with a sequence the client has seen. */
  ghost predicate IsNotNewer(provider: Value -> bool, s: State, m: Value) {
    exists sequence: nat, payload ::
      ReadsSnapshot(provider, m, sequence, payload) && sequence <= s.lastSequence
  }

  /** Of any JSON message exactly one holds: it is accepted, it is a valid snapshot that is not newer,
      or it is fatal; and it is fatal exactly when an error is told. */
  lemma OneOfThree(provider: Value -> bool, s: State, m: Value)
    requires UniqueNames(m)
    ensures
      var r := ReduceMessage(provider, s, m);
      && (r.accepted || r.stale || r.fatal) && !(r.accepted && r.stale) && !(r.stale && r.fatal)
      && !(r.accepted && r.fatal) && (r.fatal <==> r.error != "") && (!r.accepted ==> r.state == s)
      && r.stale == (TakesSnapshots(s) && IsNotNewer(provider, s, m))
  {
    var p := Parse(provider, m);
    OutcomeIsTold(s, p);
    forall sequence: nat, payload
      ensures p == Snapshot(sequence, payload) <==> ReadsSnapshot(provider, m, sequence, payload)
    {
      SnapshotsExactly(provider, m, sequence, payload);
    }
    if p.Snapshot? {
      assert ReadsSnapshot(provider, m, p.sequence, p.payload);
    }
  }

  /** The name of a message's type is told unless the message is refused. */
  lemma TypeIsTold(provider: Value -> bool, s: State, m: Value)
    ensures
      var r := ReduceMessage(provider, s, m);
      if r.fatal then r.messageType == "" else Get(m, "type") == Some(Str(r.messageType))
  {
    var p := Parse(provider, m);
    TypeDecides(provider, m);
    ToldByKind(s, p);
  }

  lemma ToldByKind(s: State, p: Message)
    ensures
      var r := Reduce(s, p);
      if r.fatal then r.messageType == ""
      else
        || (p.Error? && r.messageType == "compatibility_error") || (p.Hello? && r.messageType == "hello")
        || (p.Snapshot? && r.messageType == "snapshot") || (p.Pong? && r.messageType == "pong")
        || (p.ActionProgress? && r.messageType == "action_progress")
  {
  }

  /** While a hello is awaited, the message is wrong in itself or comes too early. */
  lemma EarlyErrorsAreTold(s: State, p: Message)
    requires s.phase.AwaitingHello?
    ensures
      Reduce(s, p).error
        == if p.Error? || p.Hello? then ""
           else if p.NotAMessage? then "invalid_message"
           else if p.BadError? then "invalid_compatibility_error"
           else if p.BadHello? then "invalid_hello"
           else "hello_required"
  {
  }

  /** After the end, only another end is welcome. */
  lemma LateErrorsAreTold(s: State, p: Message)
    requires s.phase.Incompatible?
    ensures
      Reduce(s, p).error
        == if p.Error? then ""
           else if p.NotAMessage? then "invalid_message"
           else if p.BadError? then "invalid_compatibility_error"
           else "connection_incompatible"
  {
  }

  predicate OfSnapshots(p: Message) {
    p.Snapshot? || p.BadSnapshot?
  }

  predicate OfProgress(p: Message) {
    p.ActionProgress? || p.BadProgress?
  }

  /** On an open connection, what was not negotiated is told before what is wrong in itself. */
  lemma ErrorsAreTold(s: State, p: Message)
    requires s.phase.Ready?
    ensures
      Reduce(s, p).error
        == if Fits(s, p) then ""
           else if p.NotAMessage? then "invalid_message"
           else if p.BadError? then "invalid_compatibility_error"
           else if p.Hello? || p.BadHello? then "duplicate_hello"
           else if OfSnapshots(p) && "display_snapshots" !in s.capabilities then "capability_not_negotiated"
           else if OfProgress(p) && "action_progress" !in s.capabilities then "capability_not_negotiated"
           else if p.BadSnapshot? then "invalid_snapshot"
           else if p.BadProgress? then "invalid_action_progress"
           else if p.BadPong? then "invalid_pong"
           else if p.Unknown? then "unknown_message_type"
           else if p.requestId !in s.requestProgress then "unsolicited_action_progress"
           else "invalid_action_progress_transition"
  {
  }

  // ----- the state after an accepted message -----

  /** The connection is over, for the given reason. */
  predicate Over(s: State, t: State, code: string, protocol: Protocol) {
    && t.phase.Incompatible? && !t.compatible && t.compatibilityFailure == code && t.protocol == Some(protocol)
    && t.capabilities == [] && t.snapshot.None? && t.requestProgress == map[] && t.requestOrder == []
    && t.streamId == s.streamId && t.lastSequence == s.lastSequence
    && t.lastActionProgress == s.lastActionProgress && t.lastPongRequestId == s.lastPongRequestId
  }

  /** The connection is open on the stream; nothing is left of another one. */
  ghost predicate IsOpen(s: State, t: State, protocol: Protocol, streamId: string, names: seq<string>) {
    && t.phase.Ready? && t.compatible && t.compatibilityFailure == "" && t.protocol == Some(protocol)
    && t.streamId == streamId && t.lastPongRequestId == s.lastPongRequestId
    && IsKnownPart(t.capabilities, names)
    && (if s.streamId == "" || s.streamId == streamId then
          && t.lastSequence == s.lastSequence && t.snapshot == s.snapshot
          && t.lastActionProgress == s.lastActionProgress
          && t.requestProgress == s.requestProgress && t.requestOrder == s.requestOrder
        else
          && t.lastSequence == 0 && t.snapshot.None? && t.lastActionProgress.None?
          && t.requestProgress == map[] && t.requestOrder == [])
  }

  /** The nine capabilities the client knows, as far as they are named, in the order they are named. */
  ghost predicate IsKnownPart(capabilities: seq<string>, names: seq<string>) {
    && (forall name :: name in capabilities <==> name in names && IsKnown(name))
    && (Distinct(names) ==> Distinct(capabilities) && InOrderOf(capabilities, names))
  }

  predicate IsKnown(name: string) {
    name in {"display_snapshots", "provider_accounts", "settings", "runtime_actions", "widget_geometry",
             "panel_state", "notifications", "action_progress", "compatibility_errors"}
  }

  /** Positions go up. */
  ghost predicate InOrderOf(part: seq<string>, whole: seq<string>) {
    forall i, j, m, n ::
      (0 <= i < j < |part| && 0 <= m < |whole| && 0 <= n < |whole| && part[i] == whole[m] && part[j] == whole[n]) ==>
        m < n
  }

  lemma KnownNames(name: string)
    ensures name in KNOWN_CAPABILITIES <==> IsKnown(name)
  {
    var k := KNOWN_CAPABILITIES;
    assert k[0] == "display_snapshots" && k[1] == "provider_accounts" && k[2] == "settings";
    assert k[3] == "runtime_actions" && k[4] == "widget_geometry" && k[5] == "panel_state";
    assert k[6] == "notifications" && k[7] == "action_progress" && k[8] == "compatibility_errors";
  }

  lemma {:induction false} SupportedIsKnownPart(names: seq<string>)
    ensures IsKnownPart(Supported(names), names)
  {
    forall name ensures name in KNOWN_CAPABILITIES <==> IsKnown(name) {
      KnownNames(name);
    }
    if names != [] && Distinct(names) {
      var rest := names[1..];
      forall i, j | 0 <= i < j < |rest| ensures rest[i] != rest[j] {
        assert rest[i] == names[i + 1] && rest[j] == names[j + 1];
      }
      SupportedIsKnownPart(rest);
      SupportedStaysInOrder(names, rest, Supported(rest));
    }
  }

  lemma SupportedStaysInOrder(names: seq<string>, rest: seq<string>, known: seq<string>)
    requires names != [] && rest == names[1..] && Distinct(names)
    requires Distinct(known) && InOrderOf(known, rest) && forall name :: name in known ==> name in rest
    ensures Distinct(known) && InOrderOf(known, names)
    ensures Distinct([names[0]] + known) && InOrderOf([names[0]] + known, names)
  {
    forall i | 0 <= i < |known| ensures known[i] != names[0] {
      assert known[i] in rest;
      var k :| 0 <= k < |rest| && rest[k] == known[i];
      assert names[k + 1] == known[i];
    }
    forall i, j, m, n | 0 <= i < j < |known| && 0 <= m < |names| && 0 <= n < |names|
                        && known[i] == names[m] && known[j] == names[n]
      ensures m < n
    {
      assert m > 0 && n > 0 && names[m] == rest[m - 1] && names[n] == rest[n - 1];
    }
    var more := [names[0]] + known;
    forall i, j, m, n | 0 <= i < j < |more| && 0 <= m < |names| && 0 <= n < |names|
                        && more[i] == names[m] && more[j] == names[n]
      ensures m < n
    {
      if i == 0 {
        assert m == 0 && more[j] == known[j - 1];
      } else {
        assert more[i] == known[i - 1] && more[j] == known[j - 1];
      }
    }
  }

  /** An accepted hello opens the connection, or ends it when it is unsuitable. */
  lemma HelloIsKept(s: State, p: Message)
    requires s.phase.AwaitingHello? && p.Hello?
    ensures
      var t := Reduce(s, p).state;
      if p.protocol.major != 1 then Over(s, t, "unsupported_protocol_major", Protocol(1, 0))
      else if "display_snapshots" !in p.capabilities then Over(s, t, "missing_display_snapshots", p.protocol)
      else IsOpen(s, t, p.protocol, p.streamId, p.capabilities)
  {
    SupportedIsKnownPart(p.capabilities);
  }

  /** What every other accepted message leaves. */
  lemma AcceptedIsKept(s: State, p: Message)
    requires Reduce(s, p).accepted && !p.Hello?
    ensures
      var t := Reduce(s, p).state;
      && (p.Error? ==> Over(s, t, p.code, p.supported))
      && (p.Snapshot? ==> t == s.(lastSequence := p.sequence, snapshot := Some(p.payload)))
      && (p.ActionProgress? ==>
            t == s.(lastActionProgress := Some((p.requestId, p.progress)),
                    requestProgress := s.requestProgress[p.requestId := p.progress]))
      && (p.Pong? ==> t == s.(lastPongRequestId := p.requestId))
  {
  }

  /** A reset forgets the requests and nothing else. */
  lemma ResetForgets(s: State)
    ensures Step(s, Reset) == s.(lastActionProgress := None, requestProgress := map[], requestOrder := [])
  {
  }

  /** What a reconnect keeps and what it forgets. */
  lemma ReconnectForgets(s: State)
    ensures
      var t := Step(s, Reconnect);
      && t.phase.AwaitingHello? && !t.compatible && t.compatibilityFailure == "" && t.protocol.None?
      && t.capabilities == [] && t.lastActionProgress.None? && t.lastPongRequestId == 0
      && t.streamId == s.streamId && t.lastSequence == s.lastSequence && t.snapshot == s.snapshot
      && t.requestProgress == s.requestProgress && t.requestOrder == s.requestOrder
  {
  }
}
