/** The document of the protected credential file (crates/auth/src/protected_file.rs and the
    key and secret types of crates/auth/src/secret_store.rs). */
module ProtectedDocument {
  import Js
  import Sorting
  import Text

  const DOCUMENT_VERSION := 1
  const MAX_DOCUMENT_BYTES := 8 * 1024 * 1024
  const MAX_ENTRIES := 64
  const MAX_SECRET_BYTES := 16 * 1024
  const MAX_KEY_FIELD_BYTES := 256

  type Octet = n: int | 0 <= n < 0x100

  datatype Fields = Fields(provider: string, account: string, purpose: string)

  datatype Entry = Entry(key: Fields, secret: seq<Octet>)

  datatype Document = Document(version: nat, entries: seq<Entry>)

  const NEW_DOCUMENT := Document(DOCUMENT_VERSION, [])

  // ----- validation -----

  predicate IsControl(c: char) {
    c as int < 0x20 || 0x7F <= c as int <= 0x9F
  }

  predicate ValidField(s: string) {
    s != [] && Js.Utf8Size(s) <= MAX_KEY_FIELD_BYTES && forall c :: c in s ==> !IsControl(c)
  }

  predicate ValidKey(k: Fields) {
    ValidField(k.provider) && ValidField(k.account) && ValidField(k.purpose)
  }

  predicate ValidSecret(secret: seq<Octet>) {
    0 < |secret| <= MAX_SECRET_BYTES
  }

  /** Keys and secrets that passed their constructors. */
  type SecretKey = k: Fields | ValidKey(k) witness Fields("-", "-", "-")

  type SecretValue = s: seq<Octet> | ValidSecret(s) witness [0]

  predicate KeysDistinct(entries: seq<Entry>) {
    forall i, j :: 0 <= i < j < |entries| ==> entries[i].key != entries[j].key
  }

  predicate ValidEntries(entries: seq<Entry>) {
    forall e :: e in entries ==> ValidKey(e.key) && ValidSecret(e.secret)
  }

  predicate Valid(d: Document) {
    d.version == DOCUMENT_VERSION && |d.entries| <= MAX_ENTRIES && ValidEntries(d.entries) && KeysDistinct(d.entries)
  }

  /** The check of the document in its order: the bounds first, then entry by entry, each one
      against those before it. */
  method Validate(d: Document) returns (ok: bool)
    ensures ok <==> Valid(d)
  {
    if d.version != DOCUMENT_VERSION || |d.entries| > MAX_ENTRIES {
      return false;
    }
    for i := 0 to |d.entries|
      invariant ValidEntries(d.entries[..i]) && KeysDistinct(d.entries[..i])
    {
      var entry := d.entries[i];
      assert entry in d.entries;
      if !ValidKey(entry.key) || !ValidSecret(entry.secret) {
        return false;
      }
      for j := 0 to i
        invariant forall k :: 0 <= k < j ==> d.entries[k].key != entry.key
      {
        if d.entries[j].key == entry.key {
          return false;
        }
      }
      assert d.entries[..i + 1] == d.entries[..i] + [entry];
    }
    assert d.entries[..|d.entries|] == d.entries;
    return true;
  }

  // ----- the map -----

  /** What the entries say about each key; the first entry of a key decides. */
  function AsMap(entries: seq<Entry>): map<Fields, seq<Octet>> {
    if entries == [] then map[] else AsMap(entries[1..])[entries[0].key := entries[0].secret]
  }

  /** The position of the first entry of the key, or the length if there is none. */
  function Position(entries: seq<Entry>, key: Fields): (i: nat)
    ensures i <= |entries|
    ensures forall j :: 0 <= j < i ==> entries[j].key != key
    ensures i < |entries| ==> entries[i].key == key
  {
    if entries == [] || entries[0].key == key then 0 else 1 + Position(entries[1..], key)
  }

  lemma {:induction false} AsMapIsExact(entries: seq<Entry>, key: Fields)
    ensures key in AsMap(entries) <==> Position(entries, key) < |entries|
    ensures key in AsMap(entries) ==> AsMap(entries)[key] == entries[Position(entries, key)].secret
  {
    if entries != [] && entries[0].key != key {
      AsMapIsExact(entries[1..], key);
    }
  }

  lemma AsMapOfEntry(entries: seq<Entry>, e: Entry)
    requires KeysDistinct(entries) && e in entries
    ensures e.key in AsMap(entries) && AsMap(entries)[e.key] == e.secret
  {
    AsMapIsExact(entries, e.key);
    var i :| 0 <= i < |entries| && entries[i] == e;
    assert Position(entries, e.key) == i;
  }

  lemma KeyHasEntry(entries: seq<Entry>, key: Fields)
    requires key in AsMap(entries)
    ensures Entry(key, AsMap(entries)[key]) in entries
  {
    AsMapIsExact(entries, key);
    var i := Position(entries, key);
    assert entries[i] == Entry(key, AsMap(entries)[key]);
  }

  /** Two lists without repeated keys and with the same entries are the same map. */
  lemma SameEntriesSameMap(a: seq<Entry>, b: seq<Entry>)
    requires KeysDistinct(a) && KeysDistinct(b) && forall e :: e in a <==> e in b
    ensures AsMap(a) == AsMap(b)
  {
    forall key | key in AsMap(a) ensures key in AsMap(b) && AsMap(b)[key] == AsMap(a)[key] {
      KeyHasEntry(a, key);
      AsMapOfEntry(b, Entry(key, AsMap(a)[key]));
    }
    forall key | key in AsMap(b) ensures key in AsMap(a) {
      KeyHasEntry(b, key);
      AsMapOfEntry(a, Entry(key, AsMap(b)[key]));
    }
  }

  lemma {:induction false} MapSize(entries: seq<Entry>)
    requires KeysDistinct(entries)
    ensures |AsMap(entries)| == |entries|
  {
    if entries != [] {
      MapSize(entries[1..]);
      var rest := AsMap(entries[1..]);
      AsMapIsExact(entries[1..], entries[0].key);
      assert entries[0].key !in rest;
      assert AsMap(entries).Keys == rest.Keys + {entries[0].key};
    }
  }

  // ----- the order on disk -----

  function CompareKeys(a: Fields, b: Fields): (r: Text.Ordering)
    ensures r.Equal? <==> a == b
  {
    Text.Compare(a.provider, b.provider)
      .Then(Text.Compare(a.account, b.account))
      .Then(Text.Compare(a.purpose, b.purpose))
  }

  predicate AtMost(a: Entry, b: Entry) {
    !CompareKeys(a.key, b.key).Greater?
  }

  lemma KeysAreTotal(a: Fields, b: Fields)
    ensures CompareKeys(b, a) == CompareKeys(a, b).Flip()
  {
    Text.CompareFlips(a.provider, b.provider);
    Text.CompareFlips(a.account, b.account);
    Text.CompareFlips(a.purpose, b.purpose);
  }

  lemma KeysAreTransitive(a: Fields, b: Fields, c: Fields)
    requires !CompareKeys(a, b).Greater? && !CompareKeys(b, c).Greater?
    ensures !CompareKeys(a, c).Greater?
  {
    Text.CompareTransitive(a.provider, b.provider, c.provider);
    if a.provider == b.provider == c.provider {
      Text.CompareTransitive(a.account, b.account, c.account);
      if a.account == b.account == c.account {
        Text.CompareTransitive(a.purpose, b.purpose, c.purpose);
      }
    }
  }

  lemma EntriesAreOrdered(entries: seq<Entry>)
    ensures Sorting.Orders(AtMost, entries)
  {
    forall x, y | x in entries && y in entries ensures AtMost(x, y) || AtMost(y, x) {
      KeysAreTotal(x.key, y.key);
    }
    forall x, y, z | x in entries && y in entries && z in entries && AtMost(x, y) && AtMost(y, z) ensures AtMost(x, z) {
      KeysAreTransitive(x.key, y.key, z.key);
    }
  }

  function SortEntries(entries: seq<Entry>): seq<Entry> {
    Sorting.Sort(AtMost, entries)
  }

  /** By provider, then by account, then by purpose. */
  ghost predicate KeyPrecedes(a: Fields, b: Fields) {
    || Text.Precedes(a.provider, b.provider)
    || (a.provider == b.provider && Text.Precedes(a.account, b.account))
    || (a.provider == b.provider && a.account == b.account && Text.Precedes(a.purpose, b.purpose))
  }

  lemma KeysCompareSo(a: Fields, b: Fields)
    ensures CompareKeys(a, b).Less? <==> KeyPrecedes(a, b)
  {
    Text.LessIsPrecedes(a.provider, b.provider);
    Text.LessIsPrecedes(a.account, b.account);
    Text.LessIsPrecedes(a.purpose, b.purpose);
  }

  /** Each entry is before the next, with no key twice. */
  ghost predicate StrictlySorted(entries: seq<Entry>) {
    forall i, j :: 0 <= i < j < |entries| ==> KeyPrecedes(entries[i].key, entries[j].key)
  }

  /** A document is valid exactly when it is of version 1, has at most 64 entries with different keys,
      every part of a key has 1 to 256 bytes and no control character, and every secret 1 to 16384. */
  lemma ValidExactly(d: Document)
    ensures Valid(d)
       <==> && d.version == 1 && |d.entries| <= 64
            && (forall e :: e in d.entries ==>
                  && IsPart(e.key.provider) && IsPart(e.key.account) && IsPart(e.key.purpose)
                  && 1 <= |e.secret| <= 16384)
            && (forall i, j :: 0 <= i < j < |d.entries| ==> d.entries[i].key != d.entries[j].key)
  {
    forall s ensures ValidField(s) <==> IsPart(s) {
      PartsExactly(s);
    }
  }

  lemma PartsExactly(s: string)
    ensures ValidField(s) <==> IsPart(s)
  {
    if IsPart(s) {
      forall c | c in s ensures !IsControl(c) {
        var i :| 0 <= i < |s| && s[i] == c;
      }
    }
    if ValidField(s) {
      forall i | 0 <= i < |s| ensures s[i] as int >= 32 && !(127 <= s[i] as int <= 159) {
        assert !IsControl(s[i]);
      }
    }
  }

  predicate IsPart(s: string) {
    && s != "" && Js.Utf8Size(s) <= 256
    && forall i :: 0 <= i < |s| ==> s[i] as int >= 32 && !(127 <= s[i] as int <= 159)
  }

  lemma {:induction false} InsertKeepsKeysDistinct(x: Entry, s: seq<Entry>)
    requires KeysDistinct(s) && forall e :: e in s ==> e.key != x.key
    ensures KeysDistinct(Sorting.Insert(AtMost, x, s))
  {
    if s != [] && !AtMost(x, s[0]) {
      var tail := Sorting.Insert(AtMost, x, s[1..]);
      InsertKeepsKeysDistinct(x, s[1..]);
      Sorting.SameMembers(tail, [x] + s[1..]);
      forall e | e in tail ensures e.key != s[0].key {
        assert e in [x] + s[1..];
        assert s[0] in s;
      }
    }
  }

  lemma {:induction false} SortKeepsKeysDistinct(s: seq<Entry>)
    requires KeysDistinct(s)
    ensures KeysDistinct(SortEntries(s))
  {
    if s != [] {
      SortKeepsKeysDistinct(s[1..]);
      Sorting.SameMembers(SortEntries(s[1..]), s[1..]);
      InsertKeepsKeysDistinct(s[0], SortEntries(s[1..]));
    }
  }

  /** Sorting puts the keys in strict order and does not change the map or the validity. */
  lemma SortIsExact(entries: seq<Entry>)
    requires KeysDistinct(entries)
    ensures StrictlySorted(SortEntries(entries))
    ensures KeysDistinct(SortEntries(entries)) && AsMap(SortEntries(entries)) == AsMap(entries)
    ensures ValidEntries(SortEntries(entries)) <==> ValidEntries(entries)
  {
    var sorted := SortEntries(entries);
    EntriesAreOrdered(entries);
    Sorting.SortSorts(AtMost, entries);
    SortKeepsKeysDistinct(entries);
    Sorting.SameMembers(sorted, entries);
    SameEntriesSameMap(sorted, entries);
    forall i, j | 0 <= i < j < |sorted| ensures KeyPrecedes(sorted[i].key, sorted[j].key) {
      assert AtMost(sorted[i], sorted[j]);
      KeysCompareSo(sorted[i].key, sorted[j].key);
    }
  }
}
