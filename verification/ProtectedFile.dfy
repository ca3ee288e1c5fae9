/** The protected credential file as a store (crates/auth/src/protected_file.rs): it behaves as
    a finite map of at most 64 secrets whichever reads and writes fail. */
module ProtectedFile {
  import opened Results
  import opened AtomicFile
  import opened ProtectedDocument
  import ProtectedEncoding
  import Js

  datatype Error = InvalidDocument | TooManyEntries | Storage

  /** The file on disk: its size, and what its text parses to. */
  datatype File = Missing | Present(size: nat, document: Option<Document>)

  // ----- operations -----

  function Load(f: File, readable: bool): Result<Document, Error> {
    if !readable then Err(Storage)
    else if f.Missing? then Ok(NEW_DOCUMENT)
    else if f.size > MAX_DOCUMENT_BYTES then Err(Storage)
    else if f.document.None? || !Valid(f.document.value) then Err(InvalidDocument)
    else Ok(f.document.value)
  }

  function Encoded(d: Document): File {
    Present(Js.Utf8Size(ProtectedEncoding.Encode(d)), Some(d))
  }

  datatype Done<+T> = Done(file: File, result: Result<T, Error>)

  function Save(f: File, d: Document, write: WriteOutcome): Done<()> {
    var encoded := Encoded(d.(entries := SortEntries(d.entries)));
    if encoded.size > MAX_DOCUMENT_BYTES then Done(f, Err(TooManyEntries))
    else Done(After(f, encoded, write), if write.Synced? then Ok(()) else Err(Storage))
  }

  function Get(f: File, key: SecretKey, readable: bool): Result<Option<seq<Octet>>, Error> {
    match Load(f, readable)
    case Err(e) => Err(e)
    case Ok(d) =>
      var i := Position(d.entries, key);
      if i == |d.entries| then Ok(None)
      else if ValidSecret(d.entries[i].secret) then Ok(Some(d.entries[i].secret))
      else Err(InvalidDocument)
  }

  function WithEntry(entries: seq<Entry>, key: Fields, secret: seq<Octet>): seq<Entry> {
    var i := Position(entries, key);
    if i < |entries| then entries[i := Entry(key, secret)] else entries + [Entry(key, secret)]
  }

  function Put(f: File, key: SecretKey, secret: SecretValue, readable: bool, write: WriteOutcome): Done<()> {
    match Load(f, readable)
    case Err(e) => Done(f, Err(e))
    case Ok(d) =>
      if Position(d.entries, key) == |d.entries| >= MAX_ENTRIES then Done(f, Err(TooManyEntries))
      else Save(f, d.(entries := WithEntry(d.entries, key, secret)), write)
  }

  function WithoutKey(entries: seq<Entry>, key: Fields): seq<Entry> {
    if entries == [] then []
    else if entries[0].key == key then WithoutKey(entries[1..], key)
    else [entries[0]] + WithoutKey(entries[1..], key)
  }

  function Delete(f: File, key: SecretKey, readable: bool, write: WriteOutcome): Done<()> {
    match Load(f, readable)
    case Err(e) => Done(f, Err(e))
    case Ok(d) =>
      var rest := WithoutKey(d.entries, key);
      if |rest| == |d.entries| then Done(f, Ok(())) else Save(f, d.(entries := rest), write)
  }

  class Store {
    var file: File

    constructor (f: File)
      ensures file == f
    {
      file := f;
    }

    method LoadDocument(readable: bool) returns (r: Result<Document, Error>)
      ensures r == Load(file, readable)
    {
      if !readable {
        return Err(Storage);
      }
      if file.Missing? {
        return Ok(NEW_DOCUMENT);
      }
      if file.size > MAX_DOCUMENT_BYTES {
        return Err(Storage);
      }
      if file.document.None? {
        return Err(InvalidDocument);
      }
      var valid := Validate(file.document.value);
      return if valid then Ok(file.document.value) else Err(InvalidDocument);
    }

    method SaveDocument(d: Document, write: WriteOutcome) returns (r: Result<(), Error>)
      modifies this
      ensures Done(file, r) == Save(old(file), d, write)
    {
      var document := d.(entries := SortEntries(d.entries));
      var size := Js.Utf8Size(ProtectedEncoding.Encode(document));
      if size > MAX_DOCUMENT_BYTES {
        return Err(TooManyEntries);
      }
      if !write.Refused? {
        file := Present(size, Some(document));
      }
      return if write.Synced? then Ok(()) else Err(Storage);
    }

    method Find(entries: seq<Entry>, key: Fields) returns (i: nat)
      ensures i == Position(entries, key)
    {
      i := 0;
      while i < |entries| && entries[i].key != key
        invariant i <= |entries| && i + Position(entries[i..], key) == Position(entries, key)
      {
        assert entries[i..][1..] == entries[i + 1..];
        i := i + 1;
      }
    }

    method GetSync(key: SecretKey, readable: bool) returns (r: Result<Option<seq<Octet>>, Error>)
      ensures r == Get(file, key, readable)
    {
      var loaded := LoadDocument(readable);
      if loaded.Err? {
        return Err(loaded.error);
      }
      var i := Find(loaded.value.entries, key);
      if i == |loaded.value.entries| {
        return Ok(None);
      }
      var secret := loaded.value.entries[i].secret;
      return if ValidSecret(secret) then Ok(Some(secret)) else Err(InvalidDocument);
    }

    method PutSync(
      key: SecretKey, secret: SecretValue, readable: bool, write: WriteOutcome)
      returns (r: Result<(), Error>)
      modifies this
      ensures Done(file, r) == Put(old(file), key, secret, readable, write)
    {
      var loaded := LoadDocument(readable);
      if loaded.Err? {
        return Err(loaded.error);
      }
      var document := loaded.value;
      var i := Find(document.entries, key);
      if i < |document.entries| {
        var entry := document.entries[i];
        document := document.(entries := document.entries[i := entry.(secret := secret)]);
      } else {
        if |document.entries| >= MAX_ENTRIES {
          return Err(TooManyEntries);
        }
        document := document.(entries := document.entries + [Entry(key, secret)]);
      }
      r := SaveDocument(document, write);
    }

    method DeleteSync(key: SecretKey, readable: bool, write: WriteOutcome) returns (r: Result<(), Error>)
      modifies this
      ensures Done(file, r) == Delete(old(file), key, readable, write)
    {
      var loaded := LoadDocument(readable);
      if loaded.Err? {
        return Err(loaded.error);
      }
      var document := loaded.value;
      var before := |document.entries|;
      document := document.(entries := WithoutKey(document.entries, key));
      if |document.entries| == before {
        return Ok(());
      }
      r := SaveDocument(document, write);
    }
  }

  // ----- the store is a map -----

  /** The file holds nothing, or a valid document within its size. */
  ghost predicate Loadable(f: File) {
    f.Present? ==> f.size <= MAX_DOCUMENT_BYTES && f.document.Some? && Valid(f.document.value)
  }

  ghost function View(f: File): map<Fields, seq<Octet>> {
    if f.Present? && f.document.Some? then AsMap(f.document.value.entries) else map[]
  }

  ghost predicate Neat(f: File) {
    f.Present? && f.document.Some? && StrictlySorted(f.document.value.entries)
  }

  /** A file that does not load stays as it is, and every call reports an error. */
  lemma BrokenFileStays(f: File, key: SecretKey, secret: SecretValue, readable: bool, write: WriteOutcome)
    requires !readable || !Loadable(f)
    ensures Get(f, key, readable).Err?
    ensures Put(f, key, secret, readable, write).file == f && Put(f, key, secret, readable, write).result.Err?
    ensures Delete(f, key, readable, write).file == f && Delete(f, key, readable, write).result.Err?
  {
  }

  lemma SortedDocumentIsValid(d: Document)
    requires Valid(d)
    ensures Valid(d.(entries := SortEntries(d.entries)))
  {
    SortIsExact(d.entries);
  }

  /** A valid document is never refused for its size, and is saved sorted. */
  lemma SaveIsExact(f: File, d: Document, write: WriteOutcome)
    requires Valid(d)
    ensures Save(f, d, write).result == if write.Synced? then Ok(()) else Err(Storage)
    ensures write.Refused? ==> Save(f, d, write).file == f
    ensures !write.Refused? ==> View(Save(f, d, write).file) == AsMap(d.entries)
    ensures !write.Refused? ==> Loadable(Save(f, d, write).file) && Neat(Save(f, d, write).file)
  {
    SortIsExact(d.entries);
    SortedDocumentIsValid(d);
    ProtectedEncoding.ValidDocumentsFit(d.(entries := SortEntries(d.entries)));
  }

  lemma GetIsLookup(f: File, key: SecretKey)
    requires Loadable(f)
    ensures Get(f, key, true) == Ok(if key in View(f) then Some(View(f)[key]) else None)
  {
    if f.Present? {
      var entries := f.document.value.entries;
      AsMapIsExact(entries, key);
      var i := Position(entries, key);
      assert i < |entries| ==> entries[i] in entries;
    }
  }

  lemma WithEntryIsUpdate(entries: seq<Entry>, key: Fields, secret: seq<Octet>)
    requires KeysDistinct(entries)
    ensures KeysDistinct(WithEntry(entries, key, secret))
    ensures AsMap(WithEntry(entries, key, secret)) == AsMap(entries)[key := secret]
  {
    var after := WithEntry(entries, key, secret);
    var i := Position(entries, key);
    var p := Position(after, key);
    assert after[i] == Entry(key, secret) && p == i;
    forall k ensures k in AsMap(after) <==> k in AsMap(entries)[key := secret]
             ensures k in AsMap(after) ==> AsMap(after)[k] == AsMap(entries)[key := secret][k] {
      AsMapIsExact(entries, k);
      AsMapIsExact(after, k);
      if k != key {
        SamePosition(entries, after, i, k);
      }
    }
  }

  /** Setting or adding the entry at `i` does not move the first entry of another key. */
  lemma SamePosition(entries: seq<Entry>, after: seq<Entry>, i: nat, k: Fields)
    requires i <= |entries| && i < |after| && |after| == (if i < |entries| then |entries| else |entries| + 1)
    requires forall j :: 0 <= j < |entries| && j != i ==> after[j] == entries[j]
    requires after[i].key != k && (i < |entries| ==> entries[i].key != k)
    ensures Position(entries, k) < |entries| <==> Position(after, k) < |after|
    ensures Position(entries, k) < |entries|
       ==> Position(after, k) == Position(entries, k) && after[Position(after, k)] == entries[Position(after, k)]
  {
    var p, q := Position(entries, k), Position(after, k);
    if p < |entries| {
      assert after[p].key == k;
    }
    if q < |after| {
      assert entries[q].key == k;
    }
  }

  lemma {:induction false} WithoutKeyMembers(entries: seq<Entry>, key: Fields)
    requires KeysDistinct(entries)
    ensures KeysDistinct(WithoutKey(entries, key))
    ensures forall e :: e in WithoutKey(entries, key) <==> e in entries && e.key != key
  {
    if entries != [] {
      var rest := WithoutKey(entries[1..], key);
      WithoutKeyMembers(entries[1..], key);
      assert entries == [entries[0]] + entries[1..];
      forall i | 0 <= i < |rest| ensures rest[i].key != entries[0].key {
        assert rest[i] in entries[1..];
      }
    }
  }

  lemma {:induction false} WithoutKeySize(entries: seq<Entry>, key: Fields)
    ensures |WithoutKey(entries, key)| <= |entries|
    ensures |WithoutKey(entries, key)| == |entries| <==> Position(entries, key) == |entries|
  {
    if entries != [] {
      WithoutKeySize(entries[1..], key);
    }
  }

  lemma WithoutKeyAt(entries: seq<Entry>, key: Fields, k: Fields)
    requires KeysDistinct(entries)
    ensures k in AsMap(WithoutKey(entries, key)) <==> k in AsMap(entries) && k != key
    ensures k in AsMap(WithoutKey(entries, key)) ==> AsMap(WithoutKey(entries, key))[k] == AsMap(entries)[k]
  {
    var rest := WithoutKey(entries, key);
    WithoutKeyMembers(entries, key);
    if k in AsMap(rest) {
      KeyHasEntry(rest, k);
      AsMapOfEntry(entries, Entry(k, AsMap(rest)[k]));
    }
    if k in AsMap(entries) && k != key {
      KeyHasEntry(entries, k);
      AsMapOfEntry(rest, Entry(k, AsMap(entries)[k]));
    }
  }

  lemma WithoutKeyIsRemoval(entries: seq<Entry>, key: Fields)
    requires KeysDistinct(entries)
    ensures AsMap(WithoutKey(entries, key)) == AsMap(entries) - {key}
  {
    var rest, less := AsMap(WithoutKey(entries, key)), AsMap(entries) - {key};
    forall k ensures k in rest <==> k in less
             ensures k in rest ==> rest[k] == less[k] {
      WithoutKeyAt(entries, key, k);
    }
  }

  lemma WithEntryIsValid(d: Document, key: SecretKey, secret: SecretValue)
    requires Valid(d) && (Position(d.entries, key) < |d.entries| || |d.entries| < MAX_ENTRIES)
    ensures Valid(d.(entries := WithEntry(d.entries, key, secret)))
  {
    WithEntryIsUpdate(d.entries, key, secret);
    assert forall e :: e in WithEntry(d.entries, key, secret) ==> e in d.entries || e == Entry(key, secret);
  }

  /** Putting a secret updates the map, unless the file cannot be read or the map is full; an
      unsynced write reports an error although it took effect. */
  lemma PutIsUpdate(f: File, key: SecretKey, secret: SecretValue, readable: bool, write: WriteOutcome)
    requires Loadable(f)
    ensures
      var done := Put(f, key, secret, readable, write);
      var room := key in View(f) || |View(f)| < MAX_ENTRIES;
      && (done.result.Ok? <==> readable && room && write.Synced?)
      && (readable && !room ==> done.result == Err(TooManyEntries))
      && (!readable || !room || write.Refused? ==> done.file == f)
      && (readable && room && !write.Refused? ==> Loadable(done.file) && Neat(done.file))
      && (readable && room && !write.Refused? ==> View(done.file) == View(f)[key := secret])
  {
    if readable {
      var d := Load(f, readable).value;
      assert View(f) == AsMap(d.entries);
      AsMapIsExact(d.entries, key);
      MapSize(d.entries);
      if Position(d.entries, key) < |d.entries| || |d.entries| < MAX_ENTRIES {
        var after := d.(entries := WithEntry(d.entries, key, secret));
        WithEntryIsUpdate(d.entries, key, secret);
        WithEntryIsValid(d, key, secret);
        SaveIsExact(f, after, write);
      }
    }
  }

  /** Deleting a key removes it from the map; a key that is not there is not even written. */
  lemma DeleteIsRemoval(f: File, key: SecretKey, readable: bool, write: WriteOutcome)
    requires Loadable(f)
    ensures
      var done := Delete(f, key, readable, write);
      && (done.result.Ok? <==> readable && (key !in View(f) || write.Synced?))
      && (!readable || key !in View(f) || write.Refused? ==> done.file == f)
      && (readable && key in View(f) && !write.Refused? ==> Loadable(done.file) && Neat(done.file))
      && (readable && key in View(f) && !write.Refused? ==> View(done.file) == View(f) - {key})
  {
    if readable {
      var d := Load(f, readable).value;
      assert View(f) == AsMap(d.entries);
      AsMapIsExact(d.entries, key);
      WithoutKeySize(d.entries, key);
      if |WithoutKey(d.entries, key)| < |d.entries| {
        var after := d.(entries := WithoutKey(d.entries, key));
        WithoutKeyMembers(d.entries, key);
        WithoutKeyIsRemoval(d.entries, key);
        assert Valid(after);
        SaveIsExact(f, after, write);
      }
    }
  }

  // ----- whole runs -----

  datatype Call =
    | PutCall(key: SecretKey, secret: SecretValue, readable: bool, write: WriteOutcome)
    | DeleteCall(key: SecretKey, readable: bool, write: WriteOutcome)

  function Step(f: File, call: Call): File {
    match call
    case PutCall(key, secret, readable, write) => Put(f, key, secret, readable, write).file
    case DeleteCall(key, readable, write) => Delete(f, key, readable, write).file
  }

  /** The same calls on a map of at most 64 secrets. */
  ghost function MapStep(m: map<Fields, seq<Octet>>, call: Call): map<Fields, seq<Octet>> {
    if !call.readable || call.write.Refused? then m
    else
      match call
      case PutCall(key, secret, _, _) => if key in m || |m| < MAX_ENTRIES then m[key := secret] else m
      case DeleteCall(key, _, _) => m - {key}
  }

  ghost function Replayed(m: map<Fields, seq<Octet>>, calls: seq<Call>): map<Fields, seq<Octet>> {
    if calls == [] then m else MapStep(Replayed(m, calls[..|calls| - 1]), calls[|calls| - 1])
  }

  function Run(f: File, calls: seq<Call>): File {
    if calls == [] then f else Step(Run(f, calls[..|calls| - 1]), calls[|calls| - 1])
  }

  lemma StepIsMapStep(f: File, call: Call)
    requires Loadable(f)
    ensures Loadable(Step(f, call)) && (Step(f, call) == f || Neat(Step(f, call)))
    ensures View(Step(f, call)) == MapStep(View(f), call)
  {
    match call
    case PutCall(key, secret, readable, write) => PutIsUpdate(f, key, secret, readable, write);
    case DeleteCall(key, readable, write) =>
      DeleteIsRemoval(f, key, readable, write);
      RemovingNothing(View(f), key);
  }

  lemma RemovingNothing(m: map<Fields, seq<Octet>>, key: Fields)
    ensures key !in m ==> m - {key} == m
  {
  }

  lemma SizeStays(f: File)
    requires Loadable(f)
    ensures |View(f)| <= MAX_ENTRIES
  {
    if f.Present? {
      MapSize(f.document.value.entries);
    }
  }

  /** From any file that loads, after any calls with any of their reads and writes failing, the
      file loads, is the first one or in strict order, and holds exactly what the calls that took
      effect made of what was there. */
  lemma {:induction false} RunsBehaveAsMap(f: File, calls: seq<Call>)
    requires Loadable(f)
    ensures Loadable(Run(f, calls)) && (Run(f, calls) == f || Neat(Run(f, calls)))
    ensures View(Run(f, calls)) == Replayed(View(f), calls) && |Replayed(View(f), calls)| <= MAX_ENTRIES
  {
    if calls != [] {
      var earlier := calls[..|calls| - 1];
      RunsBehaveAsMap(f, earlier);
      StepIsMapStep(Run(f, earlier), calls[|calls| - 1]);
    }
    SizeStays(Run(f, calls));
  }

  /** So does every look at it: after any run from no file at all, a key is found exactly when the
      calls that took effect left it there, with the secret they left. */
  lemma GetAfterRun(calls: seq<Call>, key: SecretKey)
    ensures
      var m := Replayed(map[], calls);
      Get(Run(Missing, calls), key, true) == Ok(if key in m then Some(m[key]) else None)
    ensures Run(Missing, calls) == Missing || Neat(Run(Missing, calls))
  {
    RunsBehaveAsMap(Missing, calls);
    GetIsLookup(Run(Missing, calls), key);
  }
}
