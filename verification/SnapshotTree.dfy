/** The budgeted tree validator of the display client (qml/omarchy-plugin/Protocol.js) and the
    64-bit field converter of the bridge in front of it (crates/app/src/main.rs). */
module SnapshotTree {
  import opened Results
  import opened Js
  import opened Sequences
  import Decimal
  import Text

  const MAX_DEPTH := 32
  const MAX_NODES := 8192
  const MAX_ARRAY_ITEMS := 2048
  const MAX_OBJECT_KEYS := 128
  const MAX_STRING_BYTES := 16 * 1024
  const U64_MAX := 0xFFFF_FFFF_FFFF_FFFF
  const U64_MAX_TEXT := "18446744073709551615"

  /** The client's table of fields that carry 64-bit integers as text. */
  const U64_FIELDS: set<string> := {
    "duration_seconds", "input_tokens", "output_tokens", "cache_read_tokens", "cache_creation_tokens",
    "reasoning_tokens", "priced", "unpriced", "unmetered", "estimated", "retry_after", "total_tokens",
    "request_count", "standard_tokens", "priority_tokens"
  }

  const FORBIDDEN_KEYS: set<string> := {"__proto__", "prototype", "constructor"}

  // ----- 64-bit integers as text -----

  /** The client's test: a pattern of one to twenty digits, and for twenty digits a string
      comparison with the largest value. */
  predicate IsExactDecimalString(s: string) {
    && 1 <= |s| <= 20
    && Decimal.AllDigits(s)
    && (s[0] == '0' ==> |s| == 1)
    && (|s| < 20 || Text.AtMost(s, U64_MAX_TEXT))
  }

  /** The bridge's parser. */
  function ParseCanonicalU64(s: string): Option<nat> {
    if s == [] || (|s| > 1 && s[0] == '0') || !Decimal.AllDigits(s) then None
    else
      var n := Decimal.Value(Decimal.Read(s));
      if n <= U64_MAX then Some(n) else None
  }

  lemma {:induction false} CompareDigits(a: string, b: string)
    requires |a| == |b| && Decimal.AllDigits(a) && Decimal.AllDigits(b)
    ensures Text.Compare(a, b).Less? <==> Decimal.Below(Decimal.Read(a), Decimal.Read(b))
  {
    if a != [] {
      CompareDigits(a[1..], b[1..]);
      assert Decimal.Read(a)[1..] == Decimal.Read(a[1..]) && Decimal.Read(b)[1..] == Decimal.Read(b[1..]);
    }
  }

  lemma ValueOfFive(a: Decimal.Digit, b: Decimal.Digit, c: Decimal.Digit, d: Decimal.Digit, e: Decimal.Digit)
    ensures Decimal.Value([a, b, c, d, e]) == 10000 * a + 1000 * b + 100 * c + 10 * d + e
  {
    assert [a, b, c, d, e][..4] == [a, b, c, d] && [a, b, c, d][..3] == [a, b, c];
    assert [a, b, c][..2] == [a, b] && [a, b][..1] == [a] && [a][..0] == [];
    assert Decimal.Value([a]) == a;
    assert Decimal.Value([a, b]) == 10 * a + b;
    assert Decimal.Value([a, b, c]) == 100 * a + 10 * b + c;
  }

  lemma {:induction false} PowerSum(a: nat, b: nat)
    ensures Decimal.Power10(a + b) == Decimal.Power10(a) * Decimal.Power10(b)
  {
    if b > 0 {
      PowerSum(a, b - 1);
      assert Decimal.Power10(a) * (10 * Decimal.Power10(b - 1)) == 10 * (Decimal.Power10(a) * Decimal.Power10(b - 1));
    }
  }

  lemma Powers()
    ensures Decimal.Power10(5) == 100_000 && Decimal.Power10(10) == 10_000_000_000
    ensures Decimal.Power10(19) == 10_000_000_000_000_000_000
  {
    assert Decimal.Power10(2) == 100 by { assert Decimal.Power10(1) == 10; }
    PowerSum(2, 2);
    assert Decimal.Power10(5) == 10 * Decimal.Power10(4);
    PowerSum(5, 5);
    PowerSum(10, 10);
    assert Decimal.Power10(20) == 10 * Decimal.Power10(19);
  }

  lemma AppendFive(a: seq<Decimal.Digit>, b: seq<Decimal.Digit>)
    requires |b| == 5
    ensures Decimal.Value(a + b) == 100_000 * Decimal.Value(a) + Decimal.Value(b)
  {
    Powers();
    Decimal.ValueOfConcat(a, b);
    assert Decimal.Power10(|b|) == 100_000;
  }

  lemma AppendGroup(
    ds: seq<Decimal.Digit>, a: Decimal.Digit, b: Decimal.Digit, c: Decimal.Digit, d: Decimal.Digit, e: Decimal.Digit)
    ensures Decimal.Value(ds + [a, b, c, d, e])
         == 100_000 * Decimal.Value(ds) + 10000 * a + 1000 * b + 100 * c + 10 * d + e
  {
    ValueOfFive(a, b, c, d, e);
    AppendFive(ds, [a, b, c, d, e]);
  }

  lemma U64MaxDigits(a: seq<Decimal.Digit>, b: seq<Decimal.Digit>, c: seq<Decimal.Digit>, d: seq<Decimal.Digit>)
    requires a == [1, 8, 4, 4, 6] && b == [7, 4, 4, 0, 7] && c == [3, 7, 0, 9, 5] && d == [5, 1, 6, 1, 5]
    ensures Decimal.Value(a + b + c + d) == U64_MAX
  {
    ValueOfFive(1, 8, 4, 4, 6);
    AppendGroup(a, 7, 4, 4, 0, 7);
    AppendGroup(a + b, 3, 7, 0, 9, 5);
    AppendGroup(a + b + c, 5, 1, 6, 1, 5);
  }

  lemma U64MaxIsDigits()
    ensures Decimal.AllDigits(U64_MAX_TEXT)
  {
    var s := U64_MAX_TEXT;
    assert s[..10] == "1844674407" && s[10..] == "3709551615";
    assert Decimal.AllDigits(s[..10]) && Decimal.AllDigits(s[10..]);
    assert forall i :: 0 <= i < |s| ==> s[i] == if i < 10 then s[..10][i] else s[10..][i - 10];
  }

  lemma U64MaxText()
    ensures |U64_MAX_TEXT| == 20 && Decimal.AllDigits(U64_MAX_TEXT)
    ensures Decimal.Value(Decimal.Read(U64_MAX_TEXT)) == U64_MAX
  {
    U64MaxIsDigits();
    var ds := Decimal.Read(U64_MAX_TEXT);
    U64MaxDigits(ds[..5], ds[5..10], ds[10..15], ds[15..]);
    assert ds[..5] + ds[5..10] + ds[10..15] + ds[15..] == ds;
  }

  /** The pattern and string comparison of the client accept exactly the texts that the
      bridge parses as a 64-bit integer. */
  lemma DecimalTestsAgree(s: string)
    ensures IsExactDecimalString(s) <==> ParseCanonicalU64(s).Some?
  {
    if s != [] && Decimal.AllDigits(s) && (s[0] == '0' ==> |s| == 1) {
      var ds, max := Decimal.Read(s), Decimal.Read(U64_MAX_TEXT);
      U64MaxText();
      Powers();
      if |s| < 20 {
        Decimal.ValueBound(ds);
        PowerGrows(|s|, 19);
      } else if |s| == 20 {
        CompareDigits(U64_MAX_TEXT, s);
        Decimal.BelowIsLess(max, ds);
        Text.CompareFlips(s, U64_MAX_TEXT);
      } else {
        Decimal.PositiveValue(ds);
        PowerGrows(20, |s| - 1);
        assert Decimal.Power10(20) == 10 * Decimal.Power10(19);
      }
    }
  }

  lemma {:induction false} PowerGrows(a: nat, b: nat)
    requires a <= b
    ensures Decimal.Power10(a) <= Decimal.Power10(b)
  {
    if a < b {
      PowerGrows(a, b - 1);
    }
  }

  // ----- the validator -----

  predicate IsAllowedNumber(n: Number) {
    && n.Finite?
    && (n.value.Floor as real != n.value || -(MAX_EXACT_INTEGER as real) <= n.value <= MAX_EXACT_INTEGER as real)
  }

  datatype Visit = Visit(ok: bool, nodes: nat)

  /** One node and everything below it, with `nodes` visited before. */
  function VisitTree(v: Value, depth: nat, nodes: nat, fieldName: string): Visit
    decreases v, 1
  {
    if depth > MAX_DEPTH || nodes >= MAX_NODES then Visit(false, nodes)
    else
      var counted := nodes + 1;
      if v.Null? then Visit(true, counted)
      else if fieldName in U64_FIELDS then Visit(v.Str? && IsExactDecimalString(v.chars), counted)
      else
        match v
        case Bool(_) => Visit(true, counted)
        case Str(chars) => Visit(Utf8Size(chars) <= MAX_STRING_BYTES, counted)
        case Num(n) => Visit(IsAllowedNumber(n), counted)
        case Array(items) =>
          if |items| > MAX_ARRAY_ITEMS then Visit(false, counted) else VisitItems(items, depth, counted)
        case Object(fields) =>
          if |fields| > MAX_OBJECT_KEYS then Visit(false, counted) else VisitFields(fields, depth, counted)
        case Null => Visit(true, counted)
  }

  function VisitItems(items: seq<Value>, depth: nat, nodes: nat): Visit
    decreases items, 0
  {
    if items == [] then Visit(true, nodes)
    else
      var head := VisitTree(items[0], depth + 1, nodes, "");
      if head.ok then VisitItems(items[1..], depth, head.nodes) else head
  }

  function VisitFields(fields: seq<Field>, depth: nat, nodes: nat): Visit
    decreases fields, 0
  {
    if fields == [] then Visit(true, nodes)
    else if fields[0].name in FORBIDDEN_KEYS then Visit(false, nodes)
    else
      var head := VisitTree(fields[0].value, depth + 1, nodes, fields[0].name);
      if head.ok then VisitFields(fields[1..], depth, head.nodes) else head
  }

  class Budget {
    var nodes: nat

    constructor ()
      ensures nodes == 0
    {
      nodes := 0;
    }
  }

  /** The recursive validator; all calls share the one budget. */
  method ValidSnapshotTree(v: Value, depth: nat, budget: Budget, fieldName: string) returns (ok: bool)
    modifies budget
    ensures Visit(ok, budget.nodes) == VisitTree(v, depth, old(budget.nodes), fieldName)
    decreases v
  {
    if depth > MAX_DEPTH || budget.nodes >= MAX_NODES {
      return false;
    }
    budget.nodes := budget.nodes + 1;
    if v.Null? {
      return true;
    }
    if fieldName in U64_FIELDS {
      return v.Str? && IsExactDecimalString(v.chars);
    }
    match v
    case Null => return true;
    case Bool(_) => return true;
    case Str(chars) => return Utf8Size(chars) <= MAX_STRING_BYTES;
    case Num(n) => return IsAllowedNumber(n);
    case Array(items) =>
      if |items| > MAX_ARRAY_ITEMS {
        return false;
      }
      ghost var goal := VisitItems(items, depth, budget.nodes);
      for i := 0 to |items|
        invariant VisitItems(items[i..], depth, budget.nodes) == goal
      {
        assert items[i..][1..] == items[i + 1..];
        var valid := ValidSnapshotTree(items[i], depth + 1, budget, "");
        if !valid {
          return false;
        }
      }
      return true;
    case Object(fields) =>
      if |fields| > MAX_OBJECT_KEYS {
        return false;
      }
      ghost var goal := VisitFields(fields, depth, budget.nodes);
      for i := 0 to |fields|
        invariant VisitFields(fields[i..], depth, budget.nodes) == goal
      {
        assert fields[i..][1..] == fields[i + 1..];
        if fields[i].name in FORBIDDEN_KEYS {
          return false;
        }
        var valid := ValidSnapshotTree(fields[i].value, depth + 1, budget, fields[i].name);
        if !valid {
          return false;
        }
      }
      return true;
  }

  // ----- what the validator decides -----

  function Size(v: Value): nat
    decreases v, 1
  {
    match v
    case Array(items) => 1 + SizeOfItems(items)
    case Object(fields) => 1 + SizeOfFields(fields)
    case _ => 1
  }

  function SizeOfItems(items: seq<Value>): nat
    decreases items, 0
  {
    if items == [] then 0 else Size(items[0]) + SizeOfItems(items[1..])
  }

  function SizeOfFields(fields: seq<Field>): nat
    decreases fields, 0
  {
    if fields == [] then 0 else Size(fields[0].value) + SizeOfFields(fields[1..])
  }

  /** No node below `v` lies deeper than `depth` levels under it. */
  predicate DepthWithin(v: Value, depth: nat)
    decreases v
  {
    match v
    case Array(items) => items == [] || (depth > 0 && forall i :: 0 <= i < |items| ==> DepthWithin(items[i], depth - 1))
    case Object(fields) =>
      fields == [] || (depth > 0 && forall i :: 0 <= i < |fields| ==> DepthWithin(fields[i].value, depth - 1))
    case _ => true
  }

  /** The size, key, number and text rules of every node. */
  predicate MeetsRules(v: Value, fieldName: string)
    decreases v
  {
    v.Null? ||
    if fieldName in U64_FIELDS then v.Str? && IsExactDecimalString(v.chars)
    else
      match v
      case Str(chars) => Utf8Size(chars) <= MAX_STRING_BYTES
      case Num(n) => IsAllowedNumber(n)
      case Array(items) =>
        |items| <= MAX_ARRAY_ITEMS && forall i :: 0 <= i < |items| ==> MeetsRules(items[i], "")
      case Object(fields) =>
        && |fields| <= MAX_OBJECT_KEYS
        && forall i :: 0 <= i < |fields| ==>
             fields[i].name !in FORBIDDEN_KEYS && MeetsRules(fields[i].value, fields[i].name)
      case _ => true
  }

  ghost predicate Passes(v: Value, depth: nat, nodes: nat, fieldName: string) {
    depth <= MAX_DEPTH && DepthWithin(v, MAX_DEPTH - depth) && nodes + Size(v) <= MAX_NODES && MeetsRules(v, fieldName)
  }

  lemma SizePositive(v: Value)
    ensures Size(v) >= 1
  {
  }

  lemma {:induction false} VisitTreeIsExact(v: Value, depth: nat, nodes: nat, fieldName: string)
    ensures VisitTree(v, depth, nodes, fieldName).ok <==> Passes(v, depth, nodes, fieldName)
    ensures VisitTree(v, depth, nodes, fieldName).ok ==> VisitTree(v, depth, nodes, fieldName).nodes == nodes + Size(v)
    decreases v, 1
  {
    SizePositive(v);
    if depth <= MAX_DEPTH && nodes < MAX_NODES && fieldName !in U64_FIELDS {
      match v
      case Array(items) => VisitItemsIsExact(items, depth, nodes + 1);
      case Object(fields) => VisitFieldsIsExact(fields, depth, nodes + 1);
      case _ =>
    }
  }

  ghost predicate ItemsPass(items: seq<Value>, depth: nat) {
    forall i :: 0 <= i < |items| ==>
      depth < MAX_DEPTH && DepthWithin(items[i], MAX_DEPTH - depth - 1) && MeetsRules(items[i], "")
  }

  lemma {:induction false} VisitItemsIsExact(items: seq<Value>, depth: nat, nodes: nat)
    requires depth <= MAX_DEPTH && nodes <= MAX_NODES
    ensures VisitItems(items, depth, nodes).ok <==> ItemsPass(items, depth) && nodes + SizeOfItems(items) <= MAX_NODES
    ensures VisitItems(items, depth, nodes).ok ==> VisitItems(items, depth, nodes).nodes == nodes + SizeOfItems(items)
    decreases items, 0
  {
    if items != [] {
      var head, rest := VisitTree(items[0], depth + 1, nodes, ""), items[1..];
      VisitTreeIsExact(items[0], depth + 1, nodes, "");
      assert ItemsPass(items, depth) ==> ItemsPass(rest, depth);
      if head.ok {
        VisitItemsIsExact(rest, depth, head.nodes);
        if ItemsPass(rest, depth) {
          forall i | 0 <= i < |items|
            ensures depth < MAX_DEPTH && DepthWithin(items[i], MAX_DEPTH - depth - 1) && MeetsRules(items[i], "")
          {
            if i > 0 { assert items[i] == rest[i - 1]; }
          }
        }
      }
    }
  }

  ghost predicate FieldsPass(fields: seq<Field>, depth: nat) {
    forall i :: 0 <= i < |fields| ==>
      && fields[i].name !in FORBIDDEN_KEYS
      && depth < MAX_DEPTH && DepthWithin(fields[i].value, MAX_DEPTH - depth - 1)
      && MeetsRules(fields[i].value, fields[i].name)
  }

  lemma {:induction false} VisitFieldsIsExact(fields: seq<Field>, depth: nat, nodes: nat)
    requires depth <= MAX_DEPTH && nodes <= MAX_NODES
    ensures VisitFields(fields, depth, nodes).ok
       <==> FieldsPass(fields, depth) && nodes + SizeOfFields(fields) <= MAX_NODES
    ensures VisitFields(fields, depth, nodes).ok
       ==> VisitFields(fields, depth, nodes).nodes == nodes + SizeOfFields(fields)
    decreases fields, 0
  {
    if fields != [] {
      var field, rest := fields[0], fields[1..];
      var head := VisitTree(field.value, depth + 1, nodes, field.name);
      VisitTreeIsExact(field.value, depth + 1, nodes, field.name);
      assert FieldsPass(fields, depth) ==> FieldsPass(rest, depth);
      if head.ok && field.name !in FORBIDDEN_KEYS {
        VisitFieldsIsExact(rest, depth, head.nodes);
        if FieldsPass(rest, depth) {
          forall i | 0 <= i < |fields|
            ensures fields[i].name !in FORBIDDEN_KEYS
                 && depth < MAX_DEPTH && DepthWithin(fields[i].value, MAX_DEPTH - depth - 1)
                 && MeetsRules(fields[i].value, fields[i].name)
          {
            if i > 0 { assert fields[i] == rest[i - 1]; }
          }
        }
      }
    }
  }

  predicate Accepted(v: Value) {
    VisitTree(v, 0, 0, "").ok
  }

  /** A whole tree is accepted exactly when it is at most 32 levels deep, has at most 8192
      nodes, and every node meets its rules. */
  lemma AcceptedIsExact(v: Value)
    ensures Accepted(v) <==> DepthWithin(v, MAX_DEPTH) && Size(v) <= MAX_NODES && MeetsRules(v, "")
  {
    VisitTreeIsExact(v, 0, 0, "");
  }

  // ----- the converter -----

  /** The bridge's table; the same fields as the client's. */
  predicate IsSnapshotU64Field(name: string) {
    name in {
      "duration_seconds", "retry_after", "input_tokens", "output_tokens", "cache_read_tokens",
      "cache_creation_tokens", "reasoning_tokens", "priced", "unpriced", "unmetered", "estimated",
      "total_tokens", "request_count", "standard_tokens", "priority_tokens"
    }
  }

  function FromU64(n: nat): Value {
    Num(Finite(n as real))
  }

  /** Whether a conversion in place went through, and what it left. */
  datatype Conversion<T> = Conversion(ok: bool, left: T)

  function Convert(v: Value): Conversion<Value>
    decreases v, 0
  {
    match v
    case Array(items) => var c := ConvertItems(items); Conversion(c.ok, Array(c.left))
    case Object(fields) => var c := ConvertFields(fields); Conversion(c.ok, Object(c.left))
    case _ => Conversion(true, v)
  }

  /** The first error stops the conversion: what follows stays as it was. */
  function ConvertItems(items: seq<Value>): (c: Conversion<seq<Value>>)
    ensures |c.left| == |items|
    decreases items, 0
  {
    if items == [] then Conversion(true, [])
    else
      var head := Convert(items[0]);
      if head.ok then After([head.left], ConvertItems(items[1..])) else Conversion(false, [head.left] + items[1..])
  }

  /** The value of one field: converted here if it is a 64-bit field, and below otherwise. */
  function ConvertValue(field: Field): Conversion<Value>
    decreases field, 0
  {
    if !IsSnapshotU64Field(field.name) then Convert(field.value)
    else if field.value.Null? then Conversion(true, field.value)
    else if field.value.Str? && ParseCanonicalU64(field.value.chars).Some? then
      Conversion(true, FromU64(ParseCanonicalU64(field.value.chars).value))
    else Conversion(false, field.value)
  }

  function ConvertFields(fields: seq<Field>): (c: Conversion<seq<Field>>)
    ensures |c.left| == |fields|
    decreases fields, 0
  {
    if fields == [] then Conversion(true, [])
    else
      var head := ConvertValue(fields[0]);
      var field := Field(fields[0].name, head.left);
      if head.ok then After([field], ConvertFields(fields[1..])) else Conversion(false, [field] + fields[1..])
  }

  function After<T>(done: seq<T>, c: Conversion<seq<T>>): (r: Conversion<seq<T>>)
    ensures |r.left| == |done| + |c.left|
  {
    Conversion(c.ok, done + c.left)
  }

  lemma AfterTwice<T>(a: seq<T>, b: seq<T>, c: Conversion<seq<T>>)
    ensures After(a, After(b, c)) == After(a + b, c)
    ensures After([], c) == c
  {
    assert a + (b + c.left) == a + b + c.left && [] + c.left == c.left;
  }

  /** One more item after those already converted. */
  lemma {:induction false} NextItem(done: seq<Value>, items: seq<Value>)
    requires items != []
    ensures
      var head, goal := Convert(items[0]), After(done, ConvertItems(items));
      && (head.ok ==> goal == After(done + [head.left], ConvertItems(items[1..])))
      && (!head.ok ==> goal == Conversion(false, done + [head.left] + items[1..]))
  {
    var head := Convert(items[0]);
    AfterTwice(done, [head.left], ConvertItems(items[1..]));
    Regroup(done, [head.left], items[1..]);
  }

  lemma {:induction false} NextField(done: seq<Field>, fields: seq<Field>)
    requires fields != []
    ensures
      var head, goal := ConvertValue(fields[0]), After(done, ConvertFields(fields));
      var field := Field(fields[0].name, head.left);
      && (head.ok ==> goal == After(done + [field], ConvertFields(fields[1..])))
      && (!head.ok ==> goal == Conversion(false, done + [field] + fields[1..]))
  {
    var head := ConvertValue(fields[0]);
    var field := Field(fields[0].name, head.left);
    AfterTwice(done, [field], ConvertFields(fields[1..]));
    Regroup(done, [field], fields[1..]);
  }

  lemma Updated<T>(s: seq<T>, i: nat, x: T)
    requires i < |s|
    ensures s[i := x] == s[..i] + [x] + s[i + 1..]
    ensures s[i := x][..i + 1] == s[..i] + [x] && s[i := x][i + 1..] == s[i + 1..]
  {
  }

  /** Replaces the children of a tree one after another and stops at the first error. */
  method ConvertSnapshotU64Fields(v: Value) returns (ok: bool, left: Value)
    ensures Conversion(ok, left) == Convert(v)
    decreases v, 1
  {
    match v
    case Array(items) =>
      var values;
      ok, values := ConvertEachItem(items);
      left := Array(values);
    case Object(fields) =>
      var entries;
      ok, entries := ConvertEachField(fields);
      left := Object(entries);
    case _ =>
      ok, left := true, v;
  }

  method ConvertEachItem(items: seq<Value>) returns (ok: bool, values: seq<Value>)
    ensures Conversion(ok, values) == ConvertItems(items)
    decreases items, 0
  {
    values := items;
    assert items[0..] == items && values[..0] == [];
    AfterTwice([], [], ConvertItems(items));
    for i := 0 to |items|
      invariant |values| == |items| && values[i..] == items[i..]
      invariant After(values[..i], ConvertItems(items[i..])) == ConvertItems(items)
    {
      assert items[i..][0] == items[i] == values[i] && items[i..][1..] == items[i + 1..] == values[i + 1..];
      NextItem(values[..i], items[i..]);
      var valid, child := ConvertSnapshotU64Fields(values[i]);
      Updated(values, i, child);
      values := values[i := child];
      if !valid {
        return false, values;
      }
    }
    assert values[..|items|] + [] == values;
    ok := true;
  }

  method ConvertEachField(fields: seq<Field>) returns (ok: bool, entries: seq<Field>)
    ensures Conversion(ok, entries) == ConvertFields(fields)
    decreases fields, 0
  {
    entries := fields;
    assert fields[0..] == fields && entries[..0] == [];
    AfterTwice([], [], ConvertFields(fields));
    for i := 0 to |fields|
      invariant |entries| == |fields| && entries[i..] == fields[i..]
      invariant After(entries[..i], ConvertFields(fields[i..])) == ConvertFields(fields)
    {
      assert fields[i..][0] == fields[i] == entries[i] && fields[i..][1..] == fields[i + 1..] == entries[i + 1..];
      NextField(entries[..i], fields[i..]);
      var valid, child := ConvertFieldValue(entries[i]);
      var field := Field(entries[i].name, child);
      Updated(entries, i, field);
      entries := entries[i := field];
      if !valid {
        return false, entries;
      }
    }
    assert entries[..|fields|] + [] == entries;
    ok := true;
  }

  /** The body of the loop over the fields. */
  method ConvertFieldValue(field: Field) returns (ok: bool, left: Value)
    ensures Conversion(ok, left) == ConvertValue(field)
    decreases field, 0
  {
    if IsSnapshotU64Field(field.name) {
      if field.value.Null? {
        return true, field.value;
      }
      if !field.value.Str? {
        return false, field.value;
      }
      var parsed := ParseCanonicalU64(field.value.chars);
      if parsed.None? {
        return false, field.value;
      }
      return true, FromU64(parsed.value);
    }
    ok, left := ConvertSnapshotU64Fields(field.value);
  }

  // ----- what the converter accepts -----

  /** Every 64-bit field, wherever it is, holds null or an exact decimal text. */
  predicate Convertible(v: Value)
    decreases v
  {
    match v
    case Array(items) => forall i :: 0 <= i < |items| ==> Convertible(items[i])
    case Object(fields) => forall i :: 0 <= i < |fields| ==> ConvertibleField(fields[i])
    case _ => true
  }

  predicate ConvertibleField(field: Field)
    decreases field
  {
    if IsSnapshotU64Field(field.name) then
      field.value.Null? || (field.value.Str? && IsExactDecimalString(field.value.chars))
    else Convertible(field.value)
  }

  /** The conversion goes through exactly for trees whose 64-bit fields pass the client's test. */
  lemma {:induction false} ConversionIsExact(v: Value)
    ensures Convert(v).ok <==> Convertible(v)
    decreases v, 0
  {
    match v
    case Array(items) => ItemsConvert(items);
    case Object(fields) => FieldsConvert(fields);
    case _ =>
  }

  lemma {:induction false} ItemsConvert(items: seq<Value>)
    ensures ConvertItems(items).ok <==> forall i :: 0 <= i < |items| ==> Convertible(items[i])
    decreases items, 0
  {
    if items != [] {
      ConversionIsExact(items[0]);
      ItemsConvert(items[1..]);
      assert items == [items[0]] + items[1..];
    }
  }

  lemma {:induction false} FieldsConvert(fields: seq<Field>)
    ensures ConvertFields(fields).ok <==> forall i :: 0 <= i < |fields| ==> ConvertibleField(fields[i])
    decreases fields, 0
  {
    if fields != [] {
      ValueConverts(fields[0]);
      FieldsConvert(fields[1..]);
      assert fields == [fields[0]] + fields[1..];
    }
  }

  lemma {:induction false} ValueConverts(field: Field)
    ensures ConvertValue(field).ok <==> ConvertibleField(field)
    decreases field, 0
  {
    if !IsSnapshotU64Field(field.name) {
      ConversionIsExact(field.value);
    } else if field.value.Str? {
      DecimalTestsAgree(field.value.chars);
    }
  }

  lemma {:induction false} RulesMakeConvertible(v: Value, fieldName: string)
    requires MeetsRules(v, fieldName)
    ensures Convertible(v)
  {
    match v
    case Array(items) =>
      forall i | 0 <= i < |items| ensures Convertible(items[i]) {
        RulesMakeConvertible(items[i], "");
      }
    case Object(fields) =>
      forall i | 0 <= i < |fields| ensures ConvertibleField(fields[i]) {
        if !IsSnapshotU64Field(fields[i].name) {
          RulesMakeConvertible(fields[i].value, fields[i].name);
        }
      }
    case _ =>
  }

  // ----- undoing the conversion -----

  /** Prints the numbers at the 64-bit fields again. */
  function Restore(v: Value): Value
    decreases v
  {
    match v
    case Array(items) => Array(seq(|items|, i requires 0 <= i < |items| => Restore(items[i])))
    case Object(fields) => Object(seq(|fields|, i requires 0 <= i < |fields| => RestoreField(fields[i])))
    case _ => v
  }

  function RestoreField(field: Field): Field
    decreases field
  {
    if !IsSnapshotU64Field(field.name) then Field(field.name, Restore(field.value))
    else
      match field.value
      case Num(Finite(n)) => if n >= 0.0 then Field(field.name, Str(Decimal.Text(n.Floor))) else field
      case _ => field
  }

  /** No 64-bit field holds a number that could be the result of a conversion. */
  predicate Unconverted(v: Value)
    decreases v
  {
    match v
    case Array(items) => forall i :: 0 <= i < |items| ==> Unconverted(items[i])
    case Object(fields) => forall i :: 0 <= i < |fields| ==> UnconvertedField(fields[i])
    case _ => true
  }

  predicate UnconvertedField(field: Field)
    decreases field
  {
    if IsSnapshotU64Field(field.name) then
      !(field.value.Num? && field.value.number.Finite? && field.value.number.value >= 0.0)
    else Unconverted(field.value)
  }

  lemma RestoredItems(items: seq<Value>, left: seq<Value>)
    requires |left| == |items|
    ensures Restore(Array(left)) == Array(items) <==> forall i :: 0 <= i < |items| ==> Restore(left[i]) == items[i]
  {
    var restored := Restore(Array(left)).items;
    assert restored == items <==> forall i :: 0 <= i < |items| ==> restored[i] == items[i];
  }

  lemma RestoredFields(fields: seq<Field>, left: seq<Field>)
    requires |left| == |fields|
    ensures Restore(Object(left)) == Object(fields)
       <==> forall i :: 0 <= i < |fields| ==> RestoreField(left[i]) == fields[i]
  {
    var restored := Restore(Object(left)).fields;
    assert restored == fields <==> forall i :: 0 <= i < |fields| ==> restored[i] == fields[i];
  }

  /** Where nothing was converted, printing changes nothing exactly when there is no such number. */
  lemma {:induction false} RestoreStays(v: Value)
    ensures Restore(v) == v <==> Unconverted(v)
    decreases v
  {
    match v
    case Array(items) =>
      RestoredItems(items, items);
      forall i | 0 <= i < |items| ensures Restore(items[i]) == items[i] <==> Unconverted(items[i]) {
        RestoreStays(items[i]);
      }
    case Object(fields) =>
      RestoredFields(fields, fields);
      forall i | 0 <= i < |fields| ensures RestoreField(fields[i]) == fields[i] <==> UnconvertedField(fields[i]) {
        RestoreFieldStays(fields[i]);
      }
    case _ =>
  }

  lemma {:induction false} RestoreFieldStays(field: Field)
    ensures RestoreField(field) == field <==> UnconvertedField(field)
    decreases field
  {
    if !IsSnapshotU64Field(field.name) {
      RestoreStays(field.value);
    }
  }

  /** Whether the conversion goes through or stops half-way, printing the numbers back restores the
      tree exactly when no 64-bit field held a number to begin with. */
  lemma {:induction false} RestoreUndoes(v: Value)
    ensures Restore(Convert(v).left) == v <==> Unconverted(v)
    decreases v, 0
  {
    match v
    case Array(items) =>
      RestoredItems(items, ConvertItems(items).left);
      RestoreUndoesItems(items);
    case Object(fields) =>
      RestoredFields(fields, ConvertFields(fields).left);
      RestoreUndoesFields(fields);
    case _ =>
  }

  lemma {:induction false} RestoreUndoesItems(items: seq<Value>)
    ensures forall i :: 0 <= i < |items| ==>
              (Restore(ConvertItems(items).left[i]) == items[i] <==> Unconverted(items[i]))
    decreases items, 0
  {
    if items != [] {
      RestoreUndoes(items[0]);
      RestoreUndoesItems(items[1..]);
      var left, tail := ConvertItems(items).left, ConvertItems(items[1..]).left;
      forall i | 0 <= i < |items| ensures Restore(left[i]) == items[i] <==> Unconverted(items[i]) {
        if i > 0 {
          RestoreStays(items[i]);
          assert items[i] == items[1..][i - 1] && (left[i] == items[i] || left[i] == tail[i - 1]);
        }
      }
    }
  }

  lemma {:induction false} RestoreUndoesFields(fields: seq<Field>)
    ensures forall i :: 0 <= i < |fields| ==>
              (RestoreField(ConvertFields(fields).left[i]) == fields[i] <==> UnconvertedField(fields[i]))
    decreases fields, 0
  {
    if fields != [] {
      RestoreUndoesField(fields[0]);
      RestoreUndoesFields(fields[1..]);
      var left, tail := ConvertFields(fields).left, ConvertFields(fields[1..]).left;
      forall i | 0 <= i < |fields| ensures RestoreField(left[i]) == fields[i] <==> UnconvertedField(fields[i]) {
        if i > 0 {
          RestoreFieldStays(fields[i]);
          assert fields[i] == fields[1..][i - 1] && (left[i] == fields[i] || left[i] == tail[i - 1]);
        }
      }
    }
  }

  lemma {:induction false} RestoreUndoesField(field: Field)
    ensures RestoreField(Field(field.name, ConvertValue(field).left)) == field <==> UnconvertedField(field)
    decreases field, 0
  {
    if !IsSnapshotU64Field(field.name) {
      RestoreUndoes(field.value);
    } else if field.value.Str? && ParseCanonicalU64(field.value.chars).Some? {
      var n := ParseCanonicalU64(field.value.chars).value;
      assert (n as real).Floor == n;
      Decimal.TextOfValue(field.value.chars);
    }
  }

  lemma {:induction false} ConvertibleIsUnconverted(v: Value)
    requires Convertible(v)
    ensures Unconverted(v)
  {
    match v
    case Array(items) =>
      forall i | 0 <= i < |items| ensures Unconverted(items[i]) {
        ConvertibleIsUnconverted(items[i]);
      }
    case Object(fields) =>
      forall i | 0 <= i < |fields| ensures UnconvertedField(fields[i]) {
        assert ConvertibleField(fields[i]);
        if !IsSnapshotU64Field(fields[i].name) {
          ConvertibleIsUnconverted(fields[i].value);
        }
      }
    case _ =>
  }

  /** A tree that is converted can be restored. */
  lemma ConversionRoundTrip(v: Value)
    requires Convert(v).ok
    ensures Restore(Convert(v).left) == v
  {
    ConversionIsExact(v);
    ConvertibleIsUnconverted(v);
    RestoreUndoes(v);
  }

  /** A snapshot the display client accepts passes the bridge and arrives unchanged. */
  lemma AcceptedTreesConvert(v: Value)
    requires Accepted(v)
    ensures Convert(v).ok && Restore(Convert(v).left) == v
  {
    AcceptedIsExact(v);
    RulesMakeConvertible(v, "");
    ConversionIsExact(v);
    ConversionRoundTrip(v);
  }

  // ----- single fields, spelled out -----

  /** The fifteen fields that carry 64-bit integers as text. */
  predicate CarriesInteger(name: string) {
    || name == "duration_seconds" || name == "retry_after" || name == "input_tokens" || name == "output_tokens"
    || name == "cache_read_tokens" || name == "cache_creation_tokens" || name == "reasoning_tokens"
    || name == "priced" || name == "unpriced" || name == "unmetered" || name == "estimated"
    || name == "total_tokens" || name == "request_count" || name == "standard_tokens" || name == "priority_tokens"
  }

  /** The decimal notation of an integer of at most 64 bits. */
  ghost predicate IsIntegerText(s: string) {
    exists n :: 0 <= n <= 18446744073709551615 && s == Decimal.Text(n)
  }

  lemma IntegerTextsExactly(s: string)
    ensures IsExactDecimalString(s) <==> IsIntegerText(s)
    ensures ParseCanonicalU64(s).Some? ==> s == Decimal.Text(ParseCanonicalU64(s).value)
  {
    DecimalTestsAgree(s);
    if ParseCanonicalU64(s).Some? {
      var ds := Decimal.Read(s);
      assert Decimal.Canonical(ds) by {
        if |s| > 1 { assert ds[0] == Decimal.DigitOf(s[0]); }
      }
      Decimal.TextOfValue(s);
      assert 0 <= ParseCanonicalU64(s).value <= 18446744073709551615;
    }
    if n :| 0 <= n <= 18446744073709551615 && s == Decimal.Text(n) {
      Decimal.ValueOfText(n);
      var ds := Decimal.Read(s);
      assert |s| > 1 ==> ds[0] == Decimal.DigitOf(s[0]);
    }
  }

  predicate IsLeaf(v: Value) {
    !v.Array? && !v.Object?
  }

  /** What a field may hold besides null, an array or an object. */
  ghost predicate MayHold(name: string, v: Value) {
    match v
    case Null => true
    case Bool(_) => !CarriesInteger(name)
    case Str(chars) => if CarriesInteger(name) then IsIntegerText(chars) else Utf8Size(chars) <= 16384
    case Num(n) =>
      && !CarriesInteger(name) && n.Finite?
      && (n.value.Floor as real != n.value || -9007199254740991.0 <= n.value <= 9007199254740991.0)
    case _ => false
  }

  /** An object of one such field is accepted exactly when its name is allowed and holds what it may. */
  lemma FieldsExactly(name: string, v: Value)
    requires IsLeaf(v)
    ensures Accepted(Object([Field(name, v)]))
       <==> name != "__proto__" && name != "prototype" && name != "constructor" && MayHold(name, v)
  {
    var fields := [Field(name, v)];
    AcceptedIsExact(Object(fields));
    assert fields[1..] == [] && SizeOfFields(fields) == Size(v) + SizeOfFields(fields[1..]);
    if v.Str? {
      IntegerTextsExactly(v.chars);
    }
    assert CarriesInteger(name) <==> name in U64_FIELDS;
  }

  /** A field that carries an integer becomes the number its text denotes, and no other text does. */
  lemma NumbersAreConverted(name: string, n: nat)
    requires CarriesInteger(name) && n <= 18446744073709551615
    ensures ConvertValue(Field(name, Str(Decimal.Text(n)))) == Conversion(true, Num(Finite(n as real)))
  {
    IntegerTextsExactly(Decimal.Text(n));
    DecimalTestsAgree(Decimal.Text(n));
    Decimal.ValueOfText(n);
  }

  /** An array may have at most 2048 items and an object at most 128 fields. */
  lemma ContainersAreBounded(items: seq<Value>, fields: seq<Field>)
    ensures Accepted(Array(items)) ==> |items| <= 2048
    ensures Accepted(Object(fields)) ==> |fields| <= 128
    ensures Accepted(Array(items)) ==> Size(Array(items)) <= 8192 && DepthWithin(Array(items), 32)
    ensures Accepted(Object(fields)) ==> Size(Object(fields)) <= 8192 && DepthWithin(Object(fields), 32)
  {
    AcceptedIsExact(Array(items));
    AcceptedIsExact(Object(fields));
  }
}
