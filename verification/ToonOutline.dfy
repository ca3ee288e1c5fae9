/** What the text of a TOON document shows of a value: entries of arrays inside arrays are spliced
    into the outer list, and a list under a key carries the number of elements it had. */
module ToonOutline {
  import opened Results
  import opened Json
  import opened Sequences
  import opened Toon
  import Decimal

  type Scalar = v: Value | IsScalar(v) witness Null

  datatype Branch = Branch(name: string, outline: Outline)

  datatype Outline =
    | Leaf(value: Scalar)
    | Tree(branches: seq<Branch>)
    | List(count: nat, entries: seq<Outline>)

  // ----- the outline of a value -----

  predicate IsNested(v: Value) {
    v.Array? && v.items != []
  }

  function OutlineOf(v: Value): Outline
    decreases v, 0
  {
    match v
    case Object(fields) => Tree(BranchesOf(fields))
    case Array(items) => List(|items|, Splice(items))
    case _ => Leaf(v)
  }

  function BranchesOf(fields: seq<Field>): seq<Branch>
    decreases fields, 0
  {
    if fields == [] then []
    else [Branch(fields[0].name, OutlineOf(fields[0].value))] + BranchesOf(fields[1..])
  }

  /** The entries of a list, with those of non-empty arrays in place of the arrays. */
  function Splice(items: seq<Value>): (entries: seq<Outline>)
    ensures entries == [] <==> items == []
    decreases items, 0
  {
    if items == [] then []
    else if IsNested(items[0]) then Splice(items[0].items) + Splice(items[1..])
    else [OutlineOf(items[0])] + Splice(items[1..])
  }

  /** A list at the root has no key, so its number of elements does not show. */
  function RootOutline(v: Value): Outline {
    if v.Array? then List(0, Splice(v.items)) else OutlineOf(v)
  }

  predicate IsFullList(o: Outline) {
    o.List? && o.entries != []
  }

  /** No list is an entry of a list unless it is empty, and empty lists count nothing. */
  predicate Proper(o: Outline)
    decreases o, 0
  {
    match o
    case Leaf(_) => true
    case Tree(branches) => ProperBranches(branches)
    case List(count, entries) => (entries == [] ==> count == 0) && ProperEntries(entries)
  }

  predicate ProperBranches(branches: seq<Branch>)
    decreases branches, 0
  {
    branches == [] || (Proper(branches[0].outline) && ProperBranches(branches[1..]))
  }

  predicate ProperEntries(entries: seq<Outline>)
    decreases entries, 0
  {
    entries == [] || (!IsFullList(entries[0]) && Proper(entries[0]) && ProperEntries(entries[1..]))
  }

  // ----- the text of an outline -----

  function OutlineText(o: Outline): string {
    match o
    case Leaf(v) => ScalarText(v) + "\n"
    case Tree(branches) => TreeText(branches, 0)
    case List(_, entries) => if entries == [] then "[]\n" else EntriesText(entries, 0)
  }

  function TreeText(branches: seq<Branch>, depth: nat): string
    decreases branches, 1
  {
    if branches == [] then "\n" else BranchesText(branches, depth)
  }

  function BranchesText(branches: seq<Branch>, depth: nat): string
    decreases branches, 0
  {
    if branches == [] then ""
    else
      Indent(depth) + KeyText(branches[0].name) + TailText(branches[0].outline, depth)
      + BranchesText(branches[1..], depth)
  }

  function TailText(o: Outline, depth: nat): string
    decreases o, 0
  {
    match o
    case Leaf(v) => ": " + ScalarText(v) + "\n"
    case Tree(branches) => ":\n" + TreeText(branches, depth + 1)
    case List(count, entries) =>
      if entries == [] then ": []\n"
      else "[" + Decimal.Text(count) + "]:\n" + EntriesText(entries, depth + 1)
  }

  function EntriesText(entries: seq<Outline>, depth: nat): string
    decreases entries, 0
  {
    if entries == [] then "" else EntryText(entries[0], depth) + EntriesText(entries[1..], depth)
  }

  function EntryText(o: Outline, depth: nat): string
    decreases o, 0
  {
    match o
    case Leaf(v) => Indent(depth) + "- " + ScalarText(v) + "\n"
    case Tree(branches) => Indent(depth) + "-\n" + TreeText(branches, depth + 1)
    case List(_, entries) =>
      if entries == [] then Indent(depth) + "- []\n" else EntriesText(entries, depth)
  }

  // ----- the text of a value is that of its outline -----

  lemma {:induction false} TailOfOutline(v: Value, depth: nat)
    ensures FieldTail(v, depth) == TailText(OutlineOf(v), depth)
    decreases v, 0
  {
    match v
    case Object(fields) => BranchesOfOutline(fields, depth + 1);
    case Array(items) => EntriesOfOutline(items, depth + 1);
    case _ =>
  }

  lemma {:induction false} BranchesOfOutline(fields: seq<Field>, depth: nat)
    ensures Fields(fields, depth) == BranchesText(BranchesOf(fields), depth)
    ensures BranchesOf(fields) == [] <==> fields == []
    decreases fields, 0
  {
    if fields != [] {
      TailOfOutline(fields[0].value, depth);
      BranchesOfOutline(fields[1..], depth);
    }
  }

  lemma {:induction false} EntriesOfConcat(a: seq<Outline>, b: seq<Outline>, depth: nat)
    ensures EntriesText(a + b, depth) == EntriesText(a, depth) + EntriesText(b, depth)
  {
    if a == [] {
      assert a + b == b;
    } else {
      assert (a + b)[0] == a[0] && (a + b)[1..] == a[1..] + b;
      EntriesOfConcat(a[1..], b, depth);
      Regroup(EntryText(a[0], depth), EntriesText(a[1..], depth), EntriesText(b, depth));
    }
  }

  lemma {:induction false} EntriesOfOutline(items: seq<Value>, depth: nat)
    ensures Items(items, depth) == EntriesText(Splice(items), depth)
    decreases items, 0
  {
    if items != [] {
      EntriesOfOutline(items[1..], depth);
      if IsNested(items[0]) {
        EntriesOfOutline(items[0].items, depth);
        EntriesOfConcat(Splice(items[0].items), Splice(items[1..]), depth);
      } else {
        EntryOfOutline(items[0], depth);
      }
    }
  }

  lemma {:induction false} EntryOfOutline(v: Value, depth: nat)
    requires !IsNested(v)
    ensures Item(v, depth) == EntryText(OutlineOf(v), depth)
    decreases v, 0
  {
    if v.Object? {
      BranchesOfOutline(v.fields, depth + 1);
    }
  }

  lemma DocumentOfOutline(v: Value)
    ensures Document(v) == OutlineText(RootOutline(v))
  {
    match v
    case Object(fields) => BranchesOfOutline(fields, 0);
    case Array(items) => EntriesOfOutline(items, 0);
    case _ =>
  }

  // ----- outlines of values are proper -----

  lemma {:induction false} OutlineIsProper(v: Value)
    ensures Proper(OutlineOf(v))
    decreases v, 0
  {
    match v
    case Object(fields) => BranchesAreProper(fields);
    case Array(items) => SpliceIsProper(items);
    case _ =>
  }

  lemma {:induction false} BranchesAreProper(fields: seq<Field>)
    ensures ProperBranches(BranchesOf(fields))
    decreases fields, 0
  {
    if fields != [] {
      OutlineIsProper(fields[0].value);
      BranchesAreProper(fields[1..]);
    }
  }

  lemma {:induction false} ProperConcat(a: seq<Outline>, b: seq<Outline>)
    requires ProperEntries(a) && ProperEntries(b)
    ensures ProperEntries(a + b)
  {
    if a == [] {
      assert a + b == b;
    } else {
      assert (a + b)[0] == a[0] && (a + b)[1..] == a[1..] + b;
      ProperConcat(a[1..], b);
    }
  }

  lemma {:induction false} SpliceIsProper(items: seq<Value>)
    ensures ProperEntries(Splice(items))
    decreases items, 0
  {
    if items != [] {
      SpliceIsProper(items[1..]);
      if IsNested(items[0]) {
        SpliceIsProper(items[0].items);
        ProperConcat(Splice(items[0].items), Splice(items[1..]));
      } else {
        OutlineIsProper(items[0]);
      }
    }
  }

  lemma RootIsProper(v: Value)
    ensures Proper(RootOutline(v))
  {
    if v.Array? {
      SpliceIsProper(v.items);
    } else {
      OutlineIsProper(v);
    }
  }

  // ----- flat values -----

  /** No array has a non-empty array as an element, anywhere in the value. */
  predicate Flat(v: Value)
    decreases v, 0
  {
    match v
    case Object(fields) => FlatFields(fields)
    case Array(items) => FlatItems(items)
    case _ => true
  }

  predicate FlatFields(fields: seq<Field>)
    decreases fields, 0
  {
    fields == [] || (Flat(fields[0].value) && FlatFields(fields[1..]))
  }

  predicate FlatItems(items: seq<Value>)
    decreases items, 0
  {
    items == [] || (!IsNested(items[0]) && Flat(items[0]) && FlatItems(items[1..]))
  }

  /** The value an outline shows. */
  function ValueOf(o: Outline): Value
    decreases o, 0
  {
    match o
    case Leaf(v) => v
    case Tree(branches) => Object(FieldsOf(branches))
    case List(_, entries) => Array(ItemsOf(entries))
  }

  function FieldsOf(branches: seq<Branch>): seq<Field>
    decreases branches, 0
  {
    if branches == [] then []
    else [Field(branches[0].name, ValueOf(branches[0].outline))] + FieldsOf(branches[1..])
  }

  function ItemsOf(entries: seq<Outline>): (items: seq<Value>)
    ensures items == [] <==> entries == []
    decreases entries, 0
  {
    if entries == [] then [] else [ValueOf(entries[0])] + ItemsOf(entries[1..])
  }

  /** A proper outline shows a flat value. */
  lemma {:induction false} ProperIsFlat(o: Outline)
    requires Proper(o)
    ensures Flat(ValueOf(o)) && (IsNested(ValueOf(o)) <==> IsFullList(o))
    decreases o, 0
  {
    match o
    case Leaf(_) =>
    case Tree(branches) => BranchesAreFlat(branches);
    case List(_, entries) => EntriesAreFlat(entries);
  }

  lemma {:induction false} BranchesAreFlat(branches: seq<Branch>)
    requires ProperBranches(branches)
    ensures FlatFields(FieldsOf(branches))
    decreases branches, 0
  {
    if branches != [] {
      ProperIsFlat(branches[0].outline);
      BranchesAreFlat(branches[1..]);
    }
  }

  lemma {:induction false} EntriesAreFlat(entries: seq<Outline>)
    requires ProperEntries(entries)
    ensures FlatItems(ItemsOf(entries))
    decreases entries, 0
  {
    if entries != [] {
      ProperIsFlat(entries[0]);
      EntriesAreFlat(entries[1..]);
    }
  }

  /** The outline of a flat value shows the value itself. */
  lemma {:induction false} FlatIsShown(v: Value)
    requires Flat(v)
    ensures ValueOf(OutlineOf(v)) == v
    decreases v, 0
  {
    match v
    case Object(fields) => FlatFieldsAreShown(fields);
    case Array(items) => FlatItemsAreShown(items);
    case _ =>
  }

  lemma {:induction false} FlatFieldsAreShown(fields: seq<Field>)
    requires FlatFields(fields)
    ensures FieldsOf(BranchesOf(fields)) == fields
    decreases fields, 0
  {
    if fields != [] {
      FlatIsShown(fields[0].value);
      FlatFieldsAreShown(fields[1..]);
      assert BranchesOf(fields)[1..] == BranchesOf(fields[1..]);
    }
  }

  lemma {:induction false} FlatItemsAreShown(items: seq<Value>)
    requires FlatItems(items)
    ensures ItemsOf(Splice(items)) == items
    decreases items, 0
  {
    if items != [] {
      FlatIsShown(items[0]);
      FlatItemsAreShown(items[1..]);
      assert Splice(items)[1..] == Splice(items[1..]);
    }
  }

  /** The text shows a value as it is exactly when the value is flat. */
  lemma ShownExactlyWhenFlat(v: Value)
    ensures ValueOf(RootOutline(v)) == v <==> Flat(v)
  {
    RootIsProper(v);
    ProperIsFlat(RootOutline(v));
    if Flat(v) {
      FlatIsShown(v);
    }
  }
}
