/** A reader for TOON documents: it recovers the outline that the text shows. */
module ToonReader {
  import opened Results
  import opened Json
  import opened Toon
  import opened ToonOutline
  import Decimal

  // ----- reading tokens -----

  predicate TokenChar(c: char) {
    PlainChar(c) || c == '+'
  }

  function TokenLength(t: string): (n: nat)
    ensures n <= |t|
    ensures forall i :: 0 <= i < n ==> TokenChar(t[i])
    ensures n < |t| ==> !TokenChar(t[n])
  {
    if t == [] || !TokenChar(t[0]) then 0 else 1 + TokenLength(t[1..])
  }

  function Classify(token: string): Value {
    if token == "null" then Null
    else if token == "true" then Bool(true)
    else if token == "false" then Bool(false)
    else if IsNumberText(token) then Number(token)
    else String(token)
  }

  function ReadKey(t: string): (r: Option<Parsed<string>>)
    ensures r.Some? ==> |r.value.rest| < |t|
  {
    if t != [] && t[0] == '"' then ReadString(t[1..])
    else
      var n := TokenLength(t);
      if n > 0 then Some(Parsed(t[..n], t[n..])) else None
  }

  function ReadScalar(t: string): (r: Option<Parsed<Value>>)
    ensures r.Some? ==> |r.value.rest| < |t| && IsScalar(r.value.value)
  {
    if t != [] && t[0] == '"' then
      match ReadString(t[1..])
      case Some(Parsed(s, rest)) => Some(Parsed(String(s), rest))
      case None => None
    else
      var n := TokenLength(t);
      if n > 0 then Some(Parsed(Classify(t[..n]), t[n..])) else None
  }

  function ReadScalarLine(t: string): (r: Option<Parsed<Value>>)
    ensures r.Some? ==> |r.value.rest| < |t| && IsScalar(r.value.value)
  {
    match ReadScalar(t)
    case Some(Parsed(v, rest)) => if rest != [] && rest[0] == '\n' then Some(Parsed(v, rest[1..])) else None
    case None => None
  }

  /** The rest of a line that holds a scalar or an empty array. */
  function ReadInline(t: string): (r: Option<Parsed<Outline>>)
    ensures r.Some? ==> |r.value.rest| < |t|
  {
    if t != [] && t[0] == '[' then
      if "[]\n" <= t then Some(Parsed(List(0, []), t[3..])) else None
    else
      match ReadScalarLine(t)
      case Some(Parsed(v, rest)) => Some(Parsed(Leaf(v), rest))
      case None => None
  }

  // ----- reading lines -----

  /** No line of depth `depth` follows. */
  predicate Stops(t: string, depth: nat) {
    t == [] || (depth > 0 && !(Indent(depth) <= t))
  }

  function ReadTree(t: string, depth: nat): (r: Option<Parsed<seq<Branch>>>)
    ensures r.Some? ==> |r.value.rest| <= |t|
    decreases |t|, 3
  {
    if t != [] && t[0] == '\n' then Some(Parsed([], t[1..])) else ReadBranches(t, depth)
  }

  function ReadBranches(t: string, depth: nat): (r: Option<Parsed<seq<Branch>>>)
    ensures r.Some? ==> |r.value.rest| <= |t|
    decreases |t|, 2
  {
    if Stops(t, depth) || !(Indent(depth) <= t) then Some(Parsed([], t))
    else
      match ReadBranch(t[2 * depth..], depth)
      case Some(Parsed(branch, rest)) =>
        (match ReadBranches(rest, depth)
         case Some(Parsed(branches, tail)) => Some(Parsed([branch] + branches, tail))
         case None => None)
      case None => None
  }

  function ReadBranch(t: string, depth: nat): (r: Option<Parsed<Branch>>)
    ensures r.Some? ==> |r.value.rest| < |t|
    decreases |t|, 1
  {
    match ReadKey(t)
    case Some(Parsed(name, rest)) =>
      (match ReadTail(rest, depth)
       case Some(Parsed(o, tail)) => Some(Parsed(Branch(name, o), tail))
       case None => None)
    case None => None
  }

  function ReadTail(t: string, depth: nat): (r: Option<Parsed<Outline>>)
    ensures r.Some? ==> |r.value.rest| <= |t|
    decreases |t|, 1
  {
    if |t| > 1 && t[0] == ':' then
      if t[1] == '\n' then
        match ReadTree(t[2..], depth + 1)
        case Some(Parsed(branches, rest)) => Some(Parsed(Tree(branches), rest))
        case None => None
      else if t[1] == ' ' then ReadInline(t[2..])
      else None
    else if t != [] && t[0] == '[' then
      var digits := DigitRun(t[1..]);
      ReadList(Decimal.Value(Decimal.Read(t[1..][..digits])), t[1..][digits..], depth)
    else None
  }

  /** What follows the number of elements of a list. */
  function ReadList(count: nat, t: string, depth: nat): (r: Option<Parsed<Outline>>)
    ensures r.Some? ==> |r.value.rest| <= |t|
    decreases |t|, 3
  {
    if "]:\n" <= t then
      match ReadEntries(t[3..], depth + 1)
      case Some(Parsed(entries, rest)) => Some(Parsed(List(count, entries), rest))
      case None => None
    else None
  }

  /** All entries up to the next line of a lower depth, however many the list announces. */
  function ReadEntries(t: string, depth: nat): (r: Option<Parsed<seq<Outline>>>)
    ensures r.Some? ==> |r.value.rest| <= |t|
    decreases |t|, 2
  {
    if Stops(t, depth) then Some(Parsed([], t))
    else
      match ReadEntry(t, depth)
      case Some(Parsed(o, rest)) =>
        (match ReadEntries(rest, depth)
         case Some(Parsed(entries, tail)) => Some(Parsed([o] + entries, tail))
         case None => None)
      case None => None
  }

  function ReadEntry(t: string, depth: nat): (r: Option<Parsed<Outline>>)
    ensures r.Some? ==> |r.value.rest| < |t|
    decreases |t|, 1
  {
    if !(Indent(depth) <= t) then None
    else
      var entry := t[2 * depth..];
      if |entry| > 1 && entry[0] == '-' then
        if entry[1] == '\n' then
          match ReadTree(entry[2..], depth + 1)
          case Some(Parsed(branches, rest)) => Some(Parsed(Tree(branches), rest))
          case None => None
        else if entry[1] == ' ' then ReadInline(entry[2..])
        else None
      else None
  }

  predicate StartsList(t: string) {
    |t| > 1 && t[0] == '-' && (t[1] == ' ' || (t[1] == '\n' && |t| > 2))
  }

  function ReadOutline(t: string): Option<Outline> {
    if t == "\n" then Some(Tree([]))
    else if t == "[]\n" then Some(List(0, []))
    else if StartsList(t) then
      match ReadEntries(t, 0)
      case Some(Parsed(entries, rest)) => if rest == [] then Some(List(0, entries)) else None
      case None => None
    else
      match ReadScalarLine(t)
      case Some(Parsed(v, rest)) => if rest == [] then Some(Leaf(v)) else None
      case None =>
        match ReadBranches(t, 0)
        case Some(Parsed(branches, rest)) => if rest == [] then Some(Tree(branches)) else None
        case None => None
  }

  /** The value that a document shows. */
  function ReadDocument(t: string): Option<Value> {
    match ReadOutline(t)
    case Some(o) => Some(ValueOf(o))
    case None => None
  }
}
