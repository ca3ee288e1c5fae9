/** The TOON printer of the command line (crates/cli/src/output.rs) and its line grammar. */
module Toon {
  import opened Results
  import opened Json
  import opened Sequences
  import opened Sinks
  import Decimal
  import Text

  // ----- scalars and keys -----

  predicate PlainChar(c: char) {
    || 'a' <= c <= 'z' || 'A' <= c <= 'Z' || '0' <= c <= '9'
    || c == '_' || c == '-' || c == '.' || c == '/'
  }

  predicate IsPlain(s: string) {
    s != [] && forall i :: 0 <= i < |s| ==> PlainChar(s[i])
  }

  /** The texts Rust's `f64` parser takes: signed decimals, infinities and NaN. */
  predicate ParsesAsFloat(s: string) {
    var magnitude := DropSign(s);
    Text.LowerAsciiText(magnitude) in {"inf", "infinity", "nan"} || IsDecimal(magnitude)
  }

  predicate IsReserved(s: string) {
    s in {"true", "false", "null"} || ParsesAsFloat(s)
  }

  function KeyText(name: string): string {
    if IsPlain(name) then name else Quote(name)
  }

  predicate IsScalar(v: Value) {
    !v.Array? && !v.Object?
  }

  function ScalarText(v: Value): string
    requires IsScalar(v)
  {
    match v
    case Null => "null"
    case Bool(flag) => if flag then "true" else "false"
    case Number(text) => text
    case String(chars) => if IsPlain(chars) && !IsReserved(chars) then chars else Quote(chars)
  }

  function Indent(depth: nat): (s: string)
    ensures |s| == 2 * depth
    ensures forall i :: 0 <= i < |s| ==> s[i] == ' '
  {
    if depth == 0 then "" else "  " + Indent(depth - 1)
  }

  // ----- the printer -----

  /** What the printer emits for one value, without a final line feed. */
  function Render(v: Value, depth: nat, key: Option<string>, listItem: bool): string
    decreases v, 1
  {
    Header(v, depth, key, listItem) + Children(v, depth, key, listItem)
  }

  function Lead(depth: nat, listItem: bool): string {
    if listItem then Indent(depth) + "- " else Indent(depth)
  }

  /** The text before the children of a container; the whole text of anything else. */
  function Header(v: Value, depth: nat, key: Option<string>, listItem: bool): string {
    match v
    case Object(fields) =>
      if key.Some? then Lead(depth, listItem) + KeyText(key.value) + ":\n"
      else if listItem then Indent(depth) + "-\n"
      else ""
    case Array(items) =>
      if key.Some? then
        if items == [] then Lead(depth, listItem) + KeyText(key.value) + ": []"
        else Lead(depth, listItem) + KeyText(key.value) + ("[" + Decimal.Text(|items|) + "]:\n")
      else if items == [] then Lead(depth, listItem) + "[]"
      else ""
    case _ =>
      if key.Some? then Lead(depth, listItem) + KeyText(key.value) + (": " + ScalarText(v))
      else Lead(depth, listItem) + ScalarText(v)
  }

  function Children(v: Value, depth: nat, key: Option<string>, listItem: bool): string
    decreases v, 0
  {
    match v
    case Object(fields) => RenderFields(fields, depth + if key.Some? || listItem then 1 else 0)
    case Array(items) => RenderItems(items, depth + if key.Some? then 1 else 0)
    case _ => ""
  }

  /** The line feed between one child and the next. */
  function Separator(remaining: nat): string {
    if remaining > 1 then "\n" else ""
  }

  function RenderFields(fields: seq<Field>, depth: nat): string
    decreases fields
  {
    if fields == [] then ""
    else
      Render(fields[0].value, depth, Some(fields[0].name), false)
      + Separator(|fields|)
      + RenderFields(fields[1..], depth)
  }

  function RenderItems(items: seq<Value>, depth: nat): string
    decreases items
  {
    if items == [] then ""
    else
      Render(items[0], depth, None, true)
      + Separator(|items|)
      + RenderItems(items[1..], depth)
  }

  lemma AddNothing(a: string)
    ensures a + "" == a && "" + a == a
  {
  }

  /** Writes one value. A destination that fills up holds a prefix of the text and the
      failure is reported. */
  method WriteValue(out: Sink<char>, v: Value, depth: nat, key: Option<string>, listItem: bool)
    returns (ok: bool)
    requires out.Valid()
    modifies out
    ensures out.Valid()
    ensures out.data == Fit(old(out.data) + Render(v, depth, key, listItem), out.room)
    ensures ok <==> |old(out.data)| + |Render(v, depth, key, listItem)| <= out.room
    decreases v, 1
  {
    var header := Header(v, depth, key, listItem);
    ghost var children := Children(v, depth, key, listItem);
    ghost var start := out.data;
    FitInParts(start, header, children, out.room);
    ok := out.Write(header);
    if !ok {
      return;
    }
    assert out.data == start + header;
    assert Render(v, depth, key, listItem) == header + children;
    match v
    case Object(fields) =>
      var inner := depth + if key.Some? || listItem then 1 else 0;
      assert children == RenderFields(fields, inner);
      ok := WriteFields(out, fields, inner);
    case Array(items) =>
      var inner := depth + if key.Some? then 1 else 0;
      assert children == RenderItems(items, inner);
      ok := WriteItems(out, items, inner);
    case _ =>
      assert children == "";
      AddNothing(out.data);
  }

  method WriteFields(out: Sink<char>, fields: seq<Field>, depth: nat) returns (ok: bool)
    requires out.Valid()
    modifies out
    ensures out.Valid()
    ensures out.data == Fit(old(out.data) + RenderFields(fields, depth), out.room)
    ensures ok <==> |old(out.data)| + |RenderFields(fields, depth)| <= out.room
    decreases fields, 0
  {
    ghost var goal := out.data + RenderFields(fields, depth);
    for index := 0 to |fields|
      invariant out.Valid()
      invariant out.data + RenderFields(fields[index..], depth) == goal
    {
      var child := fields[index];
      ghost var text := Render(child.value, depth, Some(child.name), false);
      ghost var separator := Separator(|fields[index..]|);
      ghost var rest := RenderFields(fields[index + 1..], depth);
      assert fields[index..][1..] == fields[index + 1..];
      assert goal == out.data + (text + separator + rest);
      ghost var start := out.data;
      WriteInParts(start, text, separator, rest, out.room);
      ok := WriteValue(out, child.value, depth, Some(child.name), false);
      if !ok {
        return;
      }
      if index + 1 < |fields| {
        ok := out.Write("\n");
        if !ok {
          return;
        }
      }
      assert out.data == start + text + separator;
    }
    AddNothing(out.data);
    ok := true;
  }

  method WriteItems(out: Sink<char>, items: seq<Value>, depth: nat) returns (ok: bool)
    requires out.Valid()
    modifies out
    ensures out.Valid()
    ensures out.data == Fit(old(out.data) + RenderItems(items, depth), out.room)
    ensures ok <==> |old(out.data)| + |RenderItems(items, depth)| <= out.room
    decreases items, 0
  {
    ghost var goal := out.data + RenderItems(items, depth);
    for index := 0 to |items|
      invariant out.Valid()
      invariant out.data + RenderItems(items[index..], depth) == goal
    {
      ghost var text := Render(items[index], depth, None, true);
      ghost var separator := Separator(|items[index..]|);
      ghost var rest := RenderItems(items[index + 1..], depth);
      assert items[index..][1..] == items[index + 1..];
      assert goal == out.data + (text + separator + rest);
      ghost var start := out.data;
      WriteInParts(start, text, separator, rest, out.room);
      ok := WriteValue(out, items[index], depth, None, true);
      if !ok {
        return;
      }
      if index + 1 < |items| {
        ok := out.Write("\n");
        if !ok {
          return;
        }
      }
      assert out.data == start + text + separator;
    }
    AddNothing(out.data);
    ok := true;
  }

  lemma WriteInParts(start: string, text: string, separator: string, rest: string, room: nat)
    ensures var goal := start + (text + separator + rest);
            && goal == start + text + separator + rest
            && (|start| + |text| > room ==> Fit(start + text, room) == Fit(goal, room))
            && (|start + text| + |separator| > room ==>
                  Fit(start + text + separator, room) == Fit(goal, room))
  {
    assert start + (text + separator + rest) == start + text + separator + rest;
  }

  /** The document text of a value. */
  method WriteToon(out: Sink<char>, v: Value) returns (ok: bool)
    requires out.Valid()
    modifies out
    ensures out.Valid()
    ensures out.data == Fit(old(out.data) + Document(v), out.room)
    ensures ok <==> |old(out.data)| + |Document(v)| <= out.room
  {
    RenderOfRoot(v);
    FitInParts(out.data, Render(v, 0, None, false), "\n", out.room);
    ok := WriteValue(out, v, 0, None, false);
    if ok {
      ok := out.Write("\n");
    }
  }

  // ----- the line grammar -----

  /** The document as a sequence of whole lines. */
  function Document(v: Value): string {
    match v
    case Object(fields) => Body(fields, 0)
    case Array(items) => if items == [] then "[]\n" else Items(items, 0)
    case _ => ScalarText(v) + "\n"
  }

  /** The lines below an object header: one blank line stands for no fields. */
  function Body(fields: seq<Field>, depth: nat): string
    decreases fields, 1
  {
    if fields == [] then "\n" else Fields(fields, depth)
  }

  function Fields(fields: seq<Field>, depth: nat): string
    decreases fields, 0
  {
    if fields == [] then ""
    else
      Indent(depth) + KeyText(fields[0].name) + FieldTail(fields[0].value, depth)
      + Fields(fields[1..], depth)
  }

  /** What follows a key, through the end of its last line. */
  function FieldTail(v: Value, depth: nat): string
    decreases v, 0
  {
    match v
    case Object(fields) => ":\n" + Body(fields, depth + 1)
    case Array(items) =>
      if items == [] then ": []\n"
      else "[" + Decimal.Text(|items|) + "]:\n" + Items(items, depth + 1)
    case _ => ": " + ScalarText(v) + "\n"
  }

  function Items(items: seq<Value>, depth: nat): string
    decreases items, 0
  {
    if items == [] then "" else Item(items[0], depth) + Items(items[1..], depth)
  }

  /** One list entry. A non-empty array inside an array contributes only its own entries. */
  function Item(v: Value, depth: nat): string
    decreases v, 0
  {
    match v
    case Object(fields) => Indent(depth) + "-\n" + Body(fields, depth + 1)
    case Array(items) =>
      if items == [] then Indent(depth) + "- []\n" else Items(items, depth)
    case _ => Indent(depth) + "- " + ScalarText(v) + "\n"
  }

  lemma Line(front: string, middle: string, children: string, end: string)
    ensures front + middle + children + end == front + (middle + (children + end))
  {
  }

  lemma EmptyArrayTail(front: string)
    ensures front + ": []" + "" + "\n" == front + ": []\n"
  {
    Line(front, ": []", "", "\n");
    assert ": []" + ("" + "\n") == ": []\n";
  }

  lemma {:induction false} RenderOfField(v: Value, depth: nat, name: string)
    ensures Render(v, depth, Some(name), false) + "\n" == Indent(depth) + KeyText(name) + FieldTail(v, depth)
    decreases v, 0
  {
    var front := Indent(depth) + KeyText(name);
    match v
    case Object(fields) =>
      RenderOfFields(fields, depth + 1);
      Line(front, ":\n", RenderFields(fields, depth + 1), "\n");
    case Array(items) =>
      if items == [] {
        assert RenderItems(items, depth + 1) == "";
        EmptyArrayTail(front);
        Regroup(front, ": []", "\n");
      } else {
        RenderOfItems(items, depth + 1);
        Line(front, "[" + Decimal.Text(|items|) + "]:\n", RenderItems(items, depth + 1), "\n");
      }
    case _ =>
      Line(front, ": " + ScalarText(v), "", "\n");
      AddNothing("\n");
  }

  lemma {:induction false} RenderOfItem(v: Value, depth: nat)
    ensures Render(v, depth, None, true) + "\n" == Item(v, depth)
    decreases v, 0
  {
    match v
    case Object(fields) =>
      RenderOfFields(fields, depth + 1);
      Regroup(Indent(depth) + "-\n", RenderFields(fields, depth + 1), "\n");
    case Array(items) =>
      RenderOfItems(items, depth);
      if items == [] {
        assert Header(v, depth, None, true) == Indent(depth) + "- " + "[]" && Children(v, depth, None, true) == "";
        EmptyItem(Indent(depth));
      } else {
        AddNothing(RenderItems(items, depth));
      }
    case _ =>
      AddNothing(Indent(depth) + "- " + ScalarText(v));
  }

  lemma EmptyItem(indent: string)
    ensures indent + "- " + "[]" + "" + "\n" == indent + "- []\n"
  {
    AddNothing(indent + "- " + "[]");
    Regroup(indent, "- ", "[]");
    Regroup(indent, "- []", "\n");
    assert "- " + "[]" == "- []" && "- []" + "\n" == "- []\n";
  }

  lemma RenderOfRoot(v: Value)
    ensures Render(v, 0, None, false) + "\n" == Document(v)
  {
    match v
    case Object(fields) =>
      RenderOfFields(fields, 0);
      AddNothing(RenderFields(fields, 0));
    case Array(items) =>
      RenderOfItems(items, 0);
      if items == [] {
        AddNothing("[]");
        assert Header(v, 0, None, false) == "" + "[]" && Children(v, 0, None, false) == "";
        assert "[]" + "\n" == "[]\n";
      } else {
        AddNothing(RenderItems(items, 0));
      }
    case _ =>
      AddNothing(ScalarText(v));
  }

  lemma LastLine(text: string)
    ensures text + "" + "" + "\n" == text + "\n" + ""
  {
  }

  lemma {:induction false} RenderOfFields(fields: seq<Field>, depth: nat)
    ensures RenderFields(fields, depth) + "\n" == Body(fields, depth)
    decreases fields, 0
  {
    if fields != [] {
      var text, rest := Render(fields[0].value, depth, Some(fields[0].name), false), fields[1..];
      RenderOfField(fields[0].value, depth, fields[0].name);
      RenderOfFields(rest, depth);
      assert Body(fields, depth) == text + "\n" + Fields(rest, depth);
      if rest == [] {
        LastLine(text);
      } else {
        Regroup(text + "\n", RenderFields(rest, depth), "\n");
      }
    }
  }

  lemma {:induction false} RenderOfItems(items: seq<Value>, depth: nat)
    ensures items != [] ==> RenderItems(items, depth) + "\n" == Items(items, depth)
    decreases items, 0
  {
    if items != [] {
      var text, rest := Render(items[0], depth, None, true), items[1..];
      RenderOfItem(items[0], depth);
      RenderOfItems(rest, depth);
      if rest == [] {
        LastLine(text);
      } else {
        Regroup(text + "\n", RenderItems(rest, depth), "\n");
      }
    }
  }
}
