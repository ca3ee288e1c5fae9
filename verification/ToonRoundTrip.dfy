/** Reading back what the TOON printer wrote. */
module ToonRoundTrip {
  import opened Results
  import opened Json
  import opened Sequences
  import opened Toon
  import opened ToonOutline
  import opened ToonReader
  import Decimal

  lemma DropPrefix(p: string, t: string)
    ensures p <= p + t && (p + t)[|p|..] == t
  {
  }

  // ----- tokens -----

  lemma {:induction false} TokenEnds(token: string, rest: string)
    requires forall i :: 0 <= i < |token| ==> TokenChar(token[i])
    requires rest == [] || !TokenChar(rest[0])
    ensures TokenLength(token + rest) == |token|
  {
    if token == [] {
      assert token + rest == rest;
    } else {
      TokenEnds(token[1..], rest);
      assert (token + rest)[1..] == token[1..] + rest;
    }
  }

  lemma {:induction false} DigitRunEnds(digits: string, rest: string)
    requires Decimal.AllDigits(digits)
    requires rest == [] || !Decimal.IsDigit(rest[0])
    ensures DigitRun(digits + rest) == |digits|
  {
    if digits == [] {
      assert digits + rest == rest;
    } else {
      DigitRunEnds(digits[1..], rest);
      assert (digits + rest)[1..] == digits[1..] + rest;
    }
  }

  /** A bare word is never mistaken for a number: number texts parse as floats and are quoted. */
  lemma NumberTextsAreReserved(s: string)
    requires IsNumberText(s)
    ensures IsReserved(s) && s !in {"null", "true", "false"}
  {
    assert DropSign(s) == if s[0] == '-' then s[1..] else s;
  }

  lemma ReadQuotedScalar(chars: string, rest: string)
    ensures ReadScalar(Quote(chars) + rest) == Some(Parsed(String(chars), rest))
  {
    ReadStringOfQuote(chars, rest);
    assert (Quote(chars) + rest)[1..] == EscapeAll(chars) + "\"" + rest;
  }

  lemma ReadTokenScalar(token: string, rest: string)
    requires IsToken(token)
    requires rest == [] || !TokenChar(rest[0])
    ensures ReadScalar(token + rest) == Some(Parsed(Classify(token), rest))
  {
    TokenEnds(token, rest);
    DropPrefix(token, rest);
    assert (token + rest)[..|token|] == token;
  }

  predicate IsToken(s: string) {
    s != [] && forall i :: 0 <= i < |s| ==> TokenChar(s[i])
  }

  lemma NumberIsToken(s: NumberText)
    ensures IsToken(s) && Classify(s) == Number(s)
  {
    NumberTextChars(s);
    NumberTextsAreReserved(s);
    forall i | 0 <= i < |s| ensures TokenChar(s[i]) {
      assert s[i] in s;
    }
  }

  lemma BareStringIsToken(s: string)
    requires IsPlain(s) && !IsReserved(s)
    ensures IsToken(s) && Classify(s) == String(s)
  {
    if IsNumberText(s) {
      NumberTextsAreReserved(s);
    }
  }

  predicate IsBare(v: Value) {
    IsScalar(v) && (v.String? ==> IsPlain(v.chars) && !IsReserved(v.chars))
  }

  lemma ClassifyText(v: Value)
    requires IsBare(v)
    ensures IsToken(ScalarText(v)) && Classify(ScalarText(v)) == v
  {
    match v
    case Number(text) => NumberIsToken(text);
    case String(chars) => BareStringIsToken(chars);
    case _ =>
  }

  lemma ScalarStart(v: Value)
    requires IsScalar(v)
    ensures ScalarText(v) != [] && ScalarText(v)[0] !in {' ', '[', '\n', ':'}
  {
    if IsBare(v) {
      ClassifyText(v);
    }
  }

  lemma ReadBareScalar(v: Value, rest: string)
    requires IsBare(v)
    requires rest == [] || !TokenChar(rest[0])
    ensures ReadScalar(ScalarText(v) + rest) == Some(Parsed(v, rest))
  {
    ClassifyText(v);
    ReadTokenScalar(ScalarText(v), rest);
  }

  lemma ReadScalarOfText(v: Value, rest: string)
    requires IsScalar(v)
    requires rest == [] || !TokenChar(rest[0])
    ensures ReadScalar(ScalarText(v) + rest) == Some(Parsed(v, rest))
    ensures ScalarText(v) != [] && ScalarText(v)[0] !in {' ', '[', '\n', ':'}
  {
    ScalarStart(v);
    if IsBare(v) {
      ReadBareScalar(v, rest);
    } else {
      ReadQuotedScalar(v.chars, rest);
    }
  }

  lemma ReadScalarLineOfText(v: Value, rest: string)
    requires IsScalar(v)
    ensures ReadScalarLine(ScalarText(v) + "\n" + rest) == Some(Parsed(v, rest))
    ensures ScalarText(v) != [] && ScalarText(v)[0] !in {' ', '[', '\n', ':'}
  {
    ReadScalarOfText(v, "\n" + rest);
    Regroup(ScalarText(v), "\n", rest);
    DropPrefix("\n", rest);
  }

  lemma ReadKeyOfText(name: string, rest: string)
    requires rest != [] && !TokenChar(rest[0])
    ensures ReadKey(KeyText(name) + rest) == Some(Parsed(name, rest))
    ensures KeyText(name) != [] && (KeyText(name)[0] == '"' || PlainChar(KeyText(name)[0]))
  {
    if IsPlain(name) {
      ReadPlainKey(name, rest);
    } else {
      ReadStringOfQuote(name, rest);
      assert (Quote(name) + rest)[1..] == EscapeAll(name) + "\"" + rest;
    }
  }

  lemma ReadPlainKey(name: string, rest: string)
    requires IsPlain(name) && (rest == [] || !TokenChar(rest[0]))
    ensures ReadKey(name + rest) == Some(Parsed(name, rest)) && PlainChar(name[0])
  {
    TokenEnds(name, rest);
    DropPrefix(name, rest);
    assert (name + rest)[..|name|] == name;
  }

  // ----- indentation -----

  lemma IndentGrows(depth: nat)
    ensures Indent(depth + 1) == Indent(depth) + "  "
  {
    assert Indent(depth + 1) == "  " + Indent(depth);
  }

  lemma StopsBelow(t: string, depth: nat)
    requires Stops(t, depth)
    ensures Stops(t, depth + 1)
  {
    IndentGrows(depth);
  }

  /** A line of depth `depth` ends every deeper block. */
  lemma LineStops(t: string, depth: nat)
    requires |t| > 2 * depth && Indent(depth) <= t && t[2 * depth] != ' '
    ensures Stops(t, depth + 1)
  {
    assert Indent(depth + 1)[2 * depth] == ' ';
  }

  lemma BranchesStart(branches: seq<Branch>, depth: nat, rest: string)
    requires branches != []
    ensures var more := TailText(branches[0].outline, depth) + (BranchesText(branches[1..], depth) + rest);
            var line := KeyText(branches[0].name) + more;
            && BranchesText(branches, depth) + rest == Indent(depth) + line
            && line != [] && line[0] !in {' ', '\n'}
  {
    var key, tail := KeyText(branches[0].name), TailText(branches[0].outline, depth);
    var more := BranchesText(branches[1..], depth);
    assert key != [] && (key[0] == '"' || PlainChar(key[0]));
    Regroup(Indent(depth) + key + tail, more, rest);
    Regroup(Indent(depth) + key, tail, more + rest);
    Regroup(Indent(depth), key, tail + (more + rest));
    assert (key + (tail + (more + rest)))[0] == key[0];
  }

  lemma BranchesStop(branches: seq<Branch>, depth: nat, rest: string)
    requires Stops(rest, depth)
    ensures Stops(BranchesText(branches, depth) + rest, depth + 1)
  {
    if branches == [] {
      assert BranchesText(branches, depth) + rest == rest;
      StopsBelow(rest, depth);
    } else {
      BranchesStart(branches, depth, rest);
      LineStops(BranchesText(branches, depth) + rest, depth);
    }
  }

  lemma EntryLine(o: Outline, depth: nat)
    requires !IsFullList(o)
    ensures |EntryText(o, depth)| > 2 * depth
    ensures Indent(depth) == EntryText(o, depth)[..2 * depth] && EntryText(o, depth)[2 * depth] == '-'
  {
    if o.Tree? {
      Regroup(Indent(depth), "-\n", TreeText(o.branches, depth + 1));
    } else {
      InlineEntry(o, depth);
    }
  }

  lemma EntriesStop(entries: seq<Outline>, depth: nat, rest: string)
    requires Stops(rest, depth + 1) && ProperEntries(entries)
    ensures Stops(EntriesText(entries, depth) + rest, depth + 1)
  {
    var t := EntriesText(entries, depth) + rest;
    if entries == [] {
      assert t == rest;
    } else {
      var item := EntryText(entries[0], depth);
      EntryLine(entries[0], depth);
      Regroup(item, EntriesText(entries[1..], depth), rest);
      assert Indent(depth) == t[..2 * depth] && t[2 * depth] == item[2 * depth];
      LineStops(t, depth);
    }
  }

  // ----- one step of the reader -----

  lemma ReadBranchesStep(line: string, depth: nat, branch: Branch, rest: string, branches: seq<Branch>, tail: string)
    requires line != [] && line[0] != ' '
    requires ReadBranch(line, depth) == Some(Parsed(branch, rest))
    requires ReadBranches(rest, depth) == Some(Parsed(branches, tail))
    ensures ReadBranches(Indent(depth) + line, depth) == Some(Parsed([branch] + branches, tail))
  {
    DropPrefix(Indent(depth), line);
  }

  lemma ReadTreeTail(block: string, depth: nat, branches: seq<Branch>, rest: string)
    requires ReadTree(block, depth + 1) == Some(Parsed(branches, rest))
    ensures ReadTail(":\n" + block, depth) == Some(Parsed(Tree(branches), rest))
  {
    DropPrefix(":\n", block);
  }

  lemma ReadInlineTail(line: string, depth: nat)
    ensures ReadTail(": " + line, depth) == ReadInline(line)
  {
    DropPrefix(": ", line);
  }

  lemma ReadListTail(count: nat, block: string, depth: nat, entries: seq<Outline>, rest: string)
    requires ReadEntries(block, depth + 1) == Some(Parsed(entries, rest))
    ensures ReadTail("[" + (Decimal.Text(count) + ("]:\n" + block)), depth) == Some(Parsed(List(count, entries), rest))
  {
    var digits, close := Decimal.Text(count), "]:\n" + block;
    DropPrefix("[", digits + close);
    DigitRunEnds(digits, close);
    DropPrefix(digits, close);
    assert (digits + close)[..|digits|] == digits;
    Decimal.ValueOfText(count);
    DropPrefix("]:\n", block);
    assert ReadList(count, close, depth) == Some(Parsed(List(count, entries), rest));
  }

  lemma ReadTreeEntry(block: string, depth: nat, branches: seq<Branch>, rest: string)
    requires ReadTree(block, depth + 1) == Some(Parsed(branches, rest))
    ensures ReadEntry(Indent(depth) + ("-\n" + block), depth) == Some(Parsed(Tree(branches), rest))
  {
    DropPrefix(Indent(depth), "-\n" + block);
    DropPrefix("-\n", block);
  }

  lemma ReadInlineEntry(line: string, depth: nat)
    ensures ReadEntry(Indent(depth) + ("- " + line), depth) == ReadInline(line)
  {
    DropPrefix(Indent(depth), "- " + line);
    DropPrefix("- ", line);
  }

  predicate IsInline(o: Outline) {
    !o.Tree? && !IsFullList(o)
  }

  /** The text of a scalar or an empty array after its key or dash. */
  function InlineText(o: Outline): string
    requires IsInline(o)
  {
    if o.List? then "[]\n" else ScalarText(o.value) + "\n"
  }

  lemma ReadInlineOfText(o: Outline, rest: string)
    requires IsInline(o) && Proper(o)
    ensures ReadInline(InlineText(o) + rest) == Some(Parsed(o, rest))
  {
    DropPrefix(InlineText(o), rest);
    if o.Leaf? {
      ReadScalarLineOfText(o.value, rest);
      assert (InlineText(o) + rest)[0] == ScalarText(o.value)[0];
    }
  }

  // ----- values -----

  lemma {:induction false} ReadTreeOfText(branches: seq<Branch>, depth: nat, rest: string)
    requires ProperBranches(branches) && Stops(rest, depth)
    ensures ReadTree(TreeText(branches, depth) + rest, depth) == Some(Parsed(branches, rest))
    decreases branches, 2
  {
    if branches == [] {
      DropPrefix("\n", rest);
    } else {
      ReadBranchesOfText(branches, depth, rest);
      BranchesStart(branches, depth, rest);
      var t := TreeText(branches, depth) + rest;
      assert t[0] != '\n' by { if depth > 0 { assert t[0] == Indent(depth)[0]; } }
    }
  }

  lemma {:induction false} ReadBranchesOfText(branches: seq<Branch>, depth: nat, rest: string)
    requires ProperBranches(branches) && Stops(rest, depth)
    ensures ReadBranches(BranchesText(branches, depth) + rest, depth) == Some(Parsed(branches, rest))
    decreases branches, 1
  {
    if branches == [] {
      assert BranchesText(branches, depth) + rest == rest;
    } else {
      BranchesStop(branches[1..], depth, rest);
      ReadTailOfText(branches[0].outline, depth, BranchesText(branches[1..], depth) + rest);
      ReadBranchesOfText(branches[1..], depth, rest);
      JoinBranches(branches, depth, rest);
    }
  }

  lemma JoinBranches(branches: seq<Branch>, depth: nat, rest: string)
    requires branches != []
    requires TailText(branches[0].outline, depth) != [] && TailText(branches[0].outline, depth)[0] in {':', '['}
    requires ReadTail(TailText(branches[0].outline, depth) + (BranchesText(branches[1..], depth) + rest), depth)
          == Some(Parsed(branches[0].outline, BranchesText(branches[1..], depth) + rest))
    requires ReadBranches(BranchesText(branches[1..], depth) + rest, depth) == Some(Parsed(branches[1..], rest))
    ensures ReadBranches(BranchesText(branches, depth) + rest, depth) == Some(Parsed(branches, rest))
  {
    var branch, tail := branches[0], BranchesText(branches[1..], depth) + rest;
    var line := KeyText(branch.name) + (TailText(branch.outline, depth) + tail);
    BranchesStart(branches, depth, rest);
    ReadBranchOfText(branch, depth, tail);
    ReadBranchesStep(line, depth, branch, tail, branches[1..], rest);
    assert branches == [branch] + branches[1..];
  }

  lemma ReadBranchOfText(branch: Branch, depth: nat, tail: string)
    requires TailText(branch.outline, depth) != [] && TailText(branch.outline, depth)[0] in {':', '['}
    requires ReadTail(TailText(branch.outline, depth) + tail, depth) == Some(Parsed(branch.outline, tail))
    ensures ReadBranch(KeyText(branch.name) + (TailText(branch.outline, depth) + tail), depth)
         == Some(Parsed(branch, tail))
  {
    var rest := TailText(branch.outline, depth) + tail;
    assert rest[0] == TailText(branch.outline, depth)[0];
    ReadKeyOfText(branch.name, rest);
  }

  lemma {:induction false} ReadTailOfText(o: Outline, depth: nat, rest: string)
    requires Proper(o) && Stops(rest, depth + 1)
    ensures ReadTail(TailText(o, depth) + rest, depth) == Some(Parsed(o, rest))
    ensures TailText(o, depth) != [] && TailText(o, depth)[0] in {':', '['}
    decreases o, 0
  {
    if o.Tree? {
      ReadTreeOfText(o.branches, depth + 1, rest);
      TreeTailOfText(o.branches, depth, rest);
    } else if IsFullList(o) {
      ReadEntriesOfText(o.entries, depth + 1, rest);
      ListTailOfText(o.count, o.entries, depth, rest);
    } else {
      ReadInlineOfText(o, rest);
      InlineTailOfText(o, depth, rest);
    }
  }

  lemma TreeTailOfText(branches: seq<Branch>, depth: nat, rest: string)
    requires ReadTree(TreeText(branches, depth + 1) + rest, depth + 1) == Some(Parsed(branches, rest))
    ensures ReadTail(TailText(Tree(branches), depth) + rest, depth) == Some(Parsed(Tree(branches), rest))
  {
    var block := TreeText(branches, depth + 1);
    Regroup(":\n", block, rest);
    ReadTreeTail(block + rest, depth, branches, rest);
  }

  lemma ListTailOfText(count: nat, entries: seq<Outline>, depth: nat, rest: string)
    requires entries != []
    requires ReadEntries(EntriesText(entries, depth + 1) + rest, depth + 1) == Some(Parsed(entries, rest))
    ensures ReadTail(TailText(List(count, entries), depth) + rest, depth) == Some(Parsed(List(count, entries), rest))
  {
    var digits, block := Decimal.Text(count), EntriesText(entries, depth + 1);
    ReadListTail(count, block + rest, depth, entries, rest);
    Regroup("[" + digits + "]:\n", block, rest);
    Regroup("[" + digits, "]:\n", block + rest);
    Regroup("[", digits, "]:\n" + (block + rest));
  }

  lemma InlineTailOfText(o: Outline, depth: nat, rest: string)
    requires IsInline(o)
    requires ReadInline(InlineText(o) + rest) == Some(Parsed(o, rest))
    ensures ReadTail(TailText(o, depth) + rest, depth) == Some(Parsed(o, rest))
  {
    ReadInlineTail(InlineText(o) + rest, depth);
    assert TailText(o, depth) == ": " + InlineText(o);
    Regroup(": ", InlineText(o), rest);
  }

  lemma {:induction false} ReadEntriesOfText(entries: seq<Outline>, depth: nat, rest: string)
    requires ProperEntries(entries) && Stops(rest, depth)
    ensures ReadEntries(EntriesText(entries, depth) + rest, depth) == Some(Parsed(entries, rest))
    decreases entries, 1
  {
    if entries == [] {
      assert EntriesText(entries, depth) + rest == rest;
    } else {
      var tail := EntriesText(entries[1..], depth) + rest;
      StopsBelow(rest, depth);
      EntriesStop(entries[1..], depth, rest);
      ReadEntryOfText(entries[0], depth, tail);
      ReadEntriesOfText(entries[1..], depth, rest);
      ReadEntriesStep(EntryText(entries[0], depth) + tail, depth, entries[0], tail, entries[1..], rest);
      Regroup(EntryText(entries[0], depth), EntriesText(entries[1..], depth), rest);
      assert entries == [entries[0]] + entries[1..];
    }
  }

  lemma ReadEntriesStep(t: string, depth: nat, o: Outline, rest: string, entries: seq<Outline>, tail: string)
    requires ReadEntry(t, depth) == Some(Parsed(o, rest))
    requires ReadEntries(rest, depth) == Some(Parsed(entries, tail))
    ensures ReadEntries(t, depth) == Some(Parsed([o] + entries, tail))
  {
  }

  lemma {:induction false} ReadEntryOfText(o: Outline, depth: nat, rest: string)
    requires Proper(o) && !IsFullList(o) && Stops(rest, depth + 1)
    ensures ReadEntry(EntryText(o, depth) + rest, depth) == Some(Parsed(o, rest))
    decreases o, 0
  {
    if o.Tree? {
      ReadTreeOfText(o.branches, depth + 1, rest);
      TreeEntryOfText(o.branches, depth, rest);
    } else {
      ReadInlineOfText(o, rest);
      InlineEntryOfText(o, depth, rest);
    }
  }

  lemma TreeEntryOfText(branches: seq<Branch>, depth: nat, rest: string)
    requires ReadTree(TreeText(branches, depth + 1) + rest, depth + 1) == Some(Parsed(branches, rest))
    ensures ReadEntry(EntryText(Tree(branches), depth) + rest, depth) == Some(Parsed(Tree(branches), rest))
  {
    var block := TreeText(branches, depth + 1);
    ReadTreeEntry(block + rest, depth, branches, rest);
    Regroup(Indent(depth) + "-\n", block, rest);
    Regroup(Indent(depth), "-\n", block + rest);
  }

  lemma InlineEntry(o: Outline, depth: nat)
    requires IsInline(o)
    ensures EntryText(o, depth) == Indent(depth) + ("- " + InlineText(o))
  {
    if o.Leaf? {
      Regroup(Indent(depth), "- ", ScalarText(o.value));
      Regroup(Indent(depth), "- " + ScalarText(o.value), "\n");
      Regroup("- ", ScalarText(o.value), "\n");
    }
  }

  lemma InlineEntryOfText(o: Outline, depth: nat, rest: string)
    requires IsInline(o)
    requires ReadInline(InlineText(o) + rest) == Some(Parsed(o, rest))
    ensures ReadEntry(EntryText(o, depth) + rest, depth) == Some(Parsed(o, rest))
  {
    ReadInlineEntry(InlineText(o) + rest, depth);
    InlineEntry(o, depth);
    Regroup(Indent(depth), "- " + InlineText(o), rest);
    Regroup("- ", InlineText(o), rest);
  }

  // ----- documents -----

  lemma TwoAhead(head: string, more: string)
    requires |head| == 2
    ensures |head + more| == 2 + |more| && (head + more)[0] == head[0] && (head + more)[1] == head[1]
  {
  }

  lemma TreeTextIsNotEmpty(branches: seq<Branch>, depth: nat)
    ensures TreeText(branches, depth) != []
  {
    if branches != [] {
      TailStarts(branches[0].outline, depth);
    }
  }

  lemma EntryStartsList(o: Outline, rest: string)
    requires !IsFullList(o)
    ensures StartsList(EntryText(o, 0) + rest) && EntryText(o, 0) + rest != "[]\n"
  {
    assert Indent(0) == "";
    if o.Tree? {
      var body := TreeText(o.branches, 1);
      EntryLine(o, 0);
      AddNothing("-\n");
      Regroup("-\n", body, rest);
      TwoAhead("-\n", body + rest);
      TreeTextIsNotEmpty(o.branches, 1);
    } else {
      InlineEntry(o, 0);
      AddNothing("- " + InlineText(o));
      assert EntryText(o, 0) == "- " + InlineText(o);
      Regroup("- ", InlineText(o), rest);
      TwoAhead("- ", InlineText(o) + rest);
    }
  }

  lemma ReadRootList(entries: seq<Outline>)
    requires ProperEntries(entries)
    ensures ReadOutline(OutlineText(List(0, entries))) == Some(List(0, entries))
  {
    if entries != [] {
      ReadEntriesOfText(entries, 0, "");
      AddNothing(EntriesText(entries, 0));
      EntryStartsList(entries[0], EntriesText(entries[1..], 0));
    }
  }

  lemma ReadRootTree(branches: seq<Branch>)
    requires ProperBranches(branches)
    ensures ReadOutline(OutlineText(Tree(branches))) == Some(Tree(branches))
  {
    if branches != [] {
      var t := BranchesText(branches, 0);
      AddNothing(t);
      ReadBranchesOfText(branches, 0, "");
      RootBranchesAreNoScalar(branches, t);
      assert ReadOutline(t) == Some(Tree(branches));
    }
  }

  lemma TailStarts(o: Outline, depth: nat)
    ensures TailText(o, depth) != [] && TailText(o, depth)[0] in {':', '['}
  {
  }

  lemma RootBranchesAreNoScalar(branches: seq<Branch>, t: string)
    requires branches != [] && t == BranchesText(branches, 0)
    ensures t != "\n" && t != "[]\n" && !StartsList(t) && ReadScalarLine(t).None?
  {
    var key, first := KeyText(branches[0].name), TailText(branches[0].outline, 0);
    var rest := BranchesText(branches[1..], 0);
    TailStarts(branches[0].outline, 0);
    AddNothing(key);
    Regroup(key, first, rest);
    assert (first + rest)[0] == first[0];
    RootKeyIsNoScalar(branches[0].name, first + rest);
  }

  /** A line that starts with a key is neither a list entry nor a bare scalar. */
  lemma RootKeyIsNoScalar(name: string, tail: string)
    requires tail != [] && tail[0] in {':', '['}
    ensures var t := KeyText(name) + tail;
            && t != "\n" && t != "[]\n" && !StartsList(t) && ReadScalarLine(t).None?
  {
    var t := KeyText(name) + tail;
    ReadKeyOfText(name, tail);
    if |KeyText(name)| == 1 {
      assert t[1] == tail[0];
    } else {
      assert t[0] == '-' ==> TokenChar(t[1]);
    }
  }

  lemma ReadRootScalar(v: Scalar)
    ensures ReadOutline(OutlineText(Leaf(v))) == Some(Leaf(v))
  {
    var t := ScalarText(v) + "\n";
    ReadScalarLineOfText(v, "");
    AddNothing(t);
    ScalarStartsNoList(v);
  }

  lemma ScalarStartsNoList(v: Value)
    requires IsScalar(v)
    ensures var t := ScalarText(v) + "\n"; t != "\n" && t != "[]\n" && !StartsList(t)
  {
    var text := ScalarText(v);
    ReadScalarOfText(v, "");
    var t := text + "\n";
    assert t[0] == text[0];
    if text[0] == '-' {
      ClassifyText(v);
      if |text| > 1 {
        assert t[1] == text[1] && TokenChar(text[1]);
      }
    }
  }

  /** The text of a document shows the outline of its value, for every value. */
  lemma DocumentShowsOutline(v: Value)
    ensures ReadOutline(Document(v)) == Some(RootOutline(v))
  {
    DocumentOfOutline(v);
    RootIsProper(v);
    match RootOutline(v)
    case Leaf(scalar) => ReadRootScalar(scalar);
    case Tree(branches) => ReadRootTree(branches);
    case List(_, entries) => ReadRootList(entries);
  }

  /** Two values print alike exactly when they have the same outline: when they differ at most in
      arrays inside arrays, spliced into the outer list, and lists under a key agree on their number
      of elements. */
  lemma SameTextExactly(v: Value, w: Value)
    ensures Document(v) == Document(w) <==> RootOutline(v) == RootOutline(w)
  {
    DocumentShowsOutline(v);
    DocumentShowsOutline(w);
    DocumentOfOutline(v);
    DocumentOfOutline(w);
  }

  /** The printed text determines a value exactly when no array holds a non-empty array. */
  lemma DocumentDeterminesFlatValues(v: Value)
    ensures ReadDocument(Document(v)) == Some(v) <==> Flat(v)
  {
    DocumentShowsOutline(v);
    ShownExactlyWhenFlat(v);
  }

  /** Two such values with the same text are the same value. */
  lemma DocumentIsInjective(v: Value, w: Value)
    requires Flat(v) && Flat(w)
    requires Document(v) == Document(w)
    ensures v == w
  {
    DocumentDeterminesFlatValues(v);
    DocumentDeterminesFlatValues(w);
  }

  // ----- values the text does not determine -----

  /** The same value with its first nested array wrapped in one more array. */
  function Rewrap(v: Value): Value
    requires !Flat(v)
    decreases v, 0
  {
    match v
    case Object(fields) => Object(RewrapFields(fields))
    case Array(items) => Array(RewrapItems(items))
  }

  function RewrapFields(fields: seq<Field>): (r: seq<Field>)
    requires !FlatFields(fields)
    decreases fields, 0
  {
    if !Flat(fields[0].value) then [Field(fields[0].name, Rewrap(fields[0].value))] + fields[1..]
    else [fields[0]] + RewrapFields(fields[1..])
  }

  function RewrapItems(items: seq<Value>): (r: seq<Value>)
    requires !FlatItems(items)
    decreases items, 0
  {
    if IsNested(items[0]) then [Array([items[0]])] + items[1..]
    else if !Flat(items[0]) then [Rewrap(items[0])] + items[1..]
    else [items[0]] + RewrapItems(items[1..])
  }

  lemma {:induction false} RewrapKeepsFieldTail(v: Value, depth: nat)
    requires !Flat(v)
    ensures Rewrap(v) != v && FieldTail(Rewrap(v), depth) == FieldTail(v, depth)
    decreases v, 0
  {
    match v
    case Object(fields) => RewrapKeepsFields(fields, depth + 1);
    case Array(items) => RewrapKeepsItems(items, depth + 1);
  }

  lemma {:induction false} RewrapKeepsFields(fields: seq<Field>, depth: nat)
    requires !FlatFields(fields)
    ensures RewrapFields(fields) != fields && |RewrapFields(fields)| == |fields|
    ensures Fields(RewrapFields(fields), depth) == Fields(fields, depth)
    decreases fields, 0
  {
    var r := RewrapFields(fields);
    if !Flat(fields[0].value) {
      RewrapKeepsFieldTail(fields[0].value, depth);
      assert r[0] != fields[0] && r[1..] == fields[1..];
    } else {
      RewrapKeepsFields(fields[1..], depth);
      assert r[0] == fields[0] && r[1..] == RewrapFields(fields[1..]);
    }
  }

  lemma {:induction false} RewrapKeepsItem(v: Value, depth: nat)
    requires !Flat(v) && !IsNested(v)
    ensures Rewrap(v) != v && !IsNested(Rewrap(v)) && Item(Rewrap(v), depth) == Item(v, depth)
    decreases v, 0
  {
    RewrapKeepsFields(v.fields, depth + 1);
  }

  lemma {:induction false} RewrapKeepsItems(items: seq<Value>, depth: nat)
    requires !FlatItems(items)
    ensures RewrapItems(items) != items && |RewrapItems(items)| == |items|
    ensures Items(RewrapItems(items), depth) == Items(items, depth)
    decreases items, 0
  {
    var r := RewrapItems(items);
    if IsNested(items[0]) {
      assert [items[0]][1..] == [];
      assert Items([items[0]], depth) == Item(items[0], depth) + "";
      ArrayDiffersFromItsMember(items[0]);
      assert r[0] == Array([items[0]]) && r[1..] == items[1..];
    } else if !Flat(items[0]) {
      RewrapKeepsItem(items[0], depth);
      assert r[0] == Rewrap(items[0]) && r[1..] == items[1..];
    } else {
      RewrapKeepsItems(items[1..], depth);
      assert r[0] == items[0] && r[1..] == RewrapItems(items[1..]);
    }
  }

  lemma {:induction false} ArrayDiffersFromItsMember(v: Value)
    ensures Array([v]) != v
  {
    if v.Array? && |v.items| == 1 {
      ArrayDiffersFromItsMember(v.items[0]);
    }
  }

  /** Every value outside the flat ones shares its text with a different value. */
  lemma NestedArraysCollide(v: Value)
    requires !Flat(v)
    ensures exists w :: w != v && Document(w) == Document(v)
  {
    match v {
      case Object(fields) => RewrapKeepsFields(fields, 0);
      case Array(items) => RewrapKeepsItems(items, 0);
    }
    assert Rewrap(v) != v && Document(Rewrap(v)) == Document(v);
  }
}
