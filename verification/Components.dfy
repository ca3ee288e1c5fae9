/** The status component forest of a provider and its normaliser (crates/domain/src/status.rs). */
module Components {
  import opened Results
  import opened Sequences
  import opened Sorting
  import Text

  const MAX_COMPONENTS := 64
  const MAX_DEPTH := 4

  /** Declared from least to most, as the derived order of the source enumeration has it. */
  datatype Health = Operational | Degraded | PartialOutage | MajorOutage | Critical | Maintenance | Unknown {
    function Rank(): nat {
      match this
      case Operational => 0
      case Degraded => 1
      case PartialOutage => 2
      case MajorOutage => 3
      case Critical => 4
      case Maintenance => 5
      case Unknown => 6
    }
  }

  datatype Component = Component(id: string, name: string, health: Health, rawStatus: string, children: seq<Component>)

  datatype Error = TooManyComponents(actual: nat) | DepthExceeded | DuplicateId

  // ----- the order of components -----

  function Compare(a: Component, b: Component): Text.Ordering
    decreases a, 0
  {
    Text.Compare(a.id, b.id)
      .Then(Text.Compare(a.name, b.name))
      .Then(Text.CompareInt(a.health.Rank(), b.health.Rank()))
      .Then(Text.Compare(a.rawStatus, b.rawStatus))
      .Then(CompareLevels(a.children, b.children))
  }

  /** Slices compare element by element, then by length. */
  function CompareLevels(a: seq<Component>, b: seq<Component>): Text.Ordering
    decreases a, 0
  {
    if a == [] then (if b == [] then Text.Equal else Text.Less)
    else if b == [] then Text.Greater
    else Compare(a[0], b[0]).Then(CompareLevels(a[1..], b[1..]))
  }

  predicate AtMost(a: Component, b: Component) {
    !Compare(a, b).Greater?
  }

  // ----- what a forest contains -----

  /** All ids, each component before its children. */
  function Ids(level: seq<Component>): seq<string>
    decreases level, 0
  {
    if level == [] then [] else [level[0].id] + Ids(level[0].children) + Ids(level[1..])
  }

  function Height(level: seq<Component>): nat
    decreases level, 0
  {
    if level == [] then 0
    else
      var here := 1 + Height(level[0].children);
      var next := Height(level[1..]);
      if here > next then here else next
  }

  /** The forests the normaliser takes. */
  predicate Acceptable(level: seq<Component>) {
    Distinct(Ids(level)) && |Ids(level)| <= MAX_COMPONENTS && Height(level) <= MAX_DEPTH
  }

  // ----- the canonical forest -----

  function Canonical(c: Component): Component
    decreases c, 0
  {
    c.(children := CanonicalLevel(c.children))
  }

  function CanonicalEach(level: seq<Component>): (r: seq<Component>)
    ensures |r| == |level|
    ensures forall i :: 0 <= i < |level| ==> r[i] == Canonical(level[i])
    decreases level, 0
  {
    if level == [] then [] else [Canonical(level[0])] + CanonicalEach(level[1..])
  }

  function CanonicalLevel(level: seq<Component>): seq<Component>
    decreases level, 1
  {
    Sort(AtMost, CanonicalEach(level))
  }

  // ----- reordering -----

  /** `b` is `a` with siblings reordered at any level: the first component of `a` appears,
      itself reordered inside, somewhere in `b`, and the other components match up. */
  ghost predicate Reordered(a: seq<Component>, b: seq<Component>)
    decreases a, 0
  {
    if a == [] then b == []
    else exists k :: 0 <= k < |b| && SameNode(a[0], b[k]) && Reordered(a[1..], Without(b, k))
  }

  ghost predicate SameNode(a: Component, b: Component)
    decreases a, 1
  {
    && a.id == b.id && a.name == b.name && a.health == b.health && a.rawStatus == b.rawStatus
    && Reordered(a.children, b.children)
  }

  // ----- the traversal -----

  datatype Walked = Walked(level: seq<Component>, count: nat, ids: set<string>)

  /** One level: the depth check, then each component in turn, then the sort. */
  function Walk(level: seq<Component>, depth: nat, count: nat, ids: set<string>): Result<Walked, Error>
    decreases level, 1
  {
    if level == [] then Ok(Walked([], count, ids))
    else if depth > MAX_DEPTH then Err(DepthExceeded)
    else
      match WalkEach(level, depth, count, ids)
      case Ok(w) => Ok(w.(level := Sort(AtMost, w.level)))
      case Err(e) => Err(e)
  }

  function WalkEach(level: seq<Component>, depth: nat, count: nat, ids: set<string>): Result<Walked, Error>
    decreases level, 0
  {
    if level == [] then Ok(Walked([], count, ids))
    else
      match WalkNode(level[0], depth, count, ids)
      case Err(e) => Err(e)
      case Ok(head) =>
        match WalkEach(level[1..], depth, head.count, head.ids)
        case Err(e) => Err(e)
        case Ok(rest) => Ok(rest.(level := head.level + rest.level))
  }

  /** Counts a component, records its id and descends; the result is the one component. */
  function WalkNode(c: Component, depth: nat, count: nat, ids: set<string>): Result<Walked, Error>
    decreases c, 0
  {
    if count + 1 > MAX_COMPONENTS then Err(TooManyComponents(count + 1))
    else if c.id in ids then Err(DuplicateId)
    else WithChildren(c, Walk(c.children, depth + 1, count + 1, ids + {c.id}))
  }

  function WithChildren(c: Component, below: Result<Walked, Error>): Result<Walked, Error> {
    match below
    case Ok(w) => Ok(w.(level := [c.(children := w.level)]))
    case Err(e) => Err(e)
  }

  function Normalize(level: seq<Component>): Result<seq<Component>, Error> {
    match Walk(level, 1, 0, {})
    case Ok(w) => Ok(w.level)
    case Err(e) => Err(e)
  }

  // ----- the traversal accepts exactly the acceptable forests -----

  function Members(ids: seq<string>): (s: set<string>)
    ensures forall x :: x in s <==> x in ids
  {
    set x | x in ids
  }

  predicate Fresh(found: seq<string>, ids: set<string>) {
    Distinct(found) && forall x :: x in found ==> x !in ids
  }

  lemma DistinctConcat(a: seq<string>, b: seq<string>)
    ensures Distinct(a + b) <==> Distinct(a) && Distinct(b) && forall x :: x in b ==> x !in a
  {
    var s := a + b;
    if Distinct(s) {
      forall i, j | 0 <= i < j < |a| ensures a[i] != a[j] { assert s[i] == a[i] && s[j] == a[j]; }
      forall i, j | 0 <= i < j < |b| ensures b[i] != b[j] { assert s[|a| + i] == b[i] && s[|a| + j] == b[j]; }
      forall i, j | 0 <= i < |a| && 0 <= j < |b| ensures a[i] != b[j] { assert s[i] == a[i] && s[|a| + j] == b[j]; }
    }
    if Distinct(a) && Distinct(b) && forall x :: x in b ==> x !in a {
      forall i, j | 0 <= i < j < |s| ensures s[i] != s[j] {
        if i < |a| <= j {
          assert s[i] in a && s[j] == b[j - |a|];
        }
      }
    }
  }

  lemma FreshConcat(a: seq<string>, b: seq<string>, ids: set<string>)
    ensures Fresh(a + b, ids) <==> Fresh(a, ids) && Fresh(b, ids + Members(a))
    ensures Members(a + b) == Members(a) + Members(b)
  {
    DistinctConcat(a, b);
    assert forall x :: x in a + b <==> x in a || x in b;
  }

  /** The walk of a part that holds `found` and is `height` levels high succeeds. */
  ghost predicate Passes(found: seq<string>, height: nat, depth: nat, count: nat, ids: set<string>) {
    Fresh(found, ids) && count + |found| <= MAX_COMPONENTS && (height > 0 ==> depth + height - 1 <= MAX_DEPTH)
  }

  ghost predicate Walks(r: Result<Walked, Error>, level: seq<Component>, found: seq<string>,
                        height: nat, depth: nat, count: nat, ids: set<string>) {
    && (r.Ok? <==> Passes(found, height, depth, count, ids))
    && (r.Ok? ==> r.value == Walked(level, count + |found|, ids + Members(found)))
  }

  lemma {:induction false} WalkIsExact(level: seq<Component>, depth: nat, count: nat, ids: set<string>)
    requires count <= MAX_COMPONENTS && depth >= 1
    ensures Walks(Walk(level, depth, count, ids), CanonicalLevel(level), Ids(level), Height(level), depth, count, ids)
    decreases level, 1
  {
    if level == [] {
      assert Members([]) == {};
    } else if depth <= MAX_DEPTH {
      WalkEachIsExact(level, depth, count, ids);
    } else {
      assert Height(level) >= 1;
    }
  }

  lemma {:induction false} WalkEachIsExact(level: seq<Component>, depth: nat, count: nat, ids: set<string>)
    requires count <= MAX_COMPONENTS && 1 <= depth <= MAX_DEPTH
    ensures Walks(WalkEach(level, depth, count, ids), CanonicalEach(level), Ids(level), Height(level),
                  depth, count, ids)
    decreases level, 0
  {
    if level == [] {
      assert Members([]) == {};
    } else {
      var head, rest := [level[0].id] + Ids(level[0].children), Ids(level[1..]);
      WalkNodeIsExact(level[0], depth, count, ids);
      FreshConcat(head, rest, ids);
      var node := WalkNode(level[0], depth, count, ids);
      if node.Ok? {
        WalkEachIsExact(level[1..], depth, node.value.count, node.value.ids);
        assert ids + Members(head) + Members(rest) == ids + Members(head + rest);
      }
    }
  }

  lemma {:induction false} WalkNodeIsExact(c: Component, depth: nat, count: nat, ids: set<string>)
    requires count <= MAX_COMPONENTS && 1 <= depth <= MAX_DEPTH
    ensures Walks(WalkNode(c, depth, count, ids), [Canonical(c)], [c.id] + Ids(c.children),
                  1 + Height(c.children), depth, count, ids)
    decreases c, 0
  {
    if count + 1 <= MAX_COMPONENTS && c.id !in ids {
      WalkIsExact(c.children, depth + 1, count + 1, ids + {c.id});
      var below := Walk(c.children, depth + 1, count + 1, ids + {c.id});
      NodeWalks(c, below, Ids(c.children), Height(c.children), depth, count, ids);
    } else {
      NodePasses(c.id, Ids(c.children), Height(c.children), depth, count, ids);
      assert WalkNode(c, depth, count, ids).Err?;
    }
  }

  lemma NodeWalks(c: Component, below: Result<Walked, Error>,
                  found: seq<string>, height: nat, depth: nat, count: nat, ids: set<string>)
    requires 1 <= depth <= MAX_DEPTH && count < MAX_COMPONENTS && c.id !in ids
    requires Walks(below, CanonicalLevel(c.children), found, height, depth + 1, count + 1, ids + {c.id})
    ensures Walks(WithChildren(c, below), [Canonical(c)], [c.id] + found, 1 + height, depth, count, ids)
  {
    NodePasses(c.id, found, height, depth, count, ids);
  }

  lemma NodePasses(id: string, below: seq<string>, height: nat, depth: nat, count: nat, ids: set<string>)
    requires 1 <= depth <= MAX_DEPTH
    ensures Passes([id] + below, 1 + height, depth, count, ids)
       <==> count + 1 <= MAX_COMPONENTS && id !in ids && Passes(below, height, depth + 1, count + 1, ids + {id})
    ensures ids + Members([id] + below) == ids + {id} + Members(below)
  {
    FreshConcat([id], below, ids);
    assert Members([id]) == {id};
    assert Fresh([id], ids) <==> id !in ids;
  }

  // ----- what an error says -----

  /** The error names a limit that is exceeded. */
  ghost predicate Blames(e: Error, found: seq<string>, height: nat, depth: nat, count: nat, ids: set<string>) {
    match e
    case TooManyComponents(actual) => actual == MAX_COMPONENTS + 1 && count + |found| > MAX_COMPONENTS
    case DepthExceeded => height > 0 && depth + height - 1 > MAX_DEPTH
    case DuplicateId => !Fresh(found, ids)
  }

  lemma BlamePart(
    e: Error, a: seq<string>, b: seq<string>, h: nat, height: nat, depth: nat, count: nat, ids: set<string>)
    requires Blames(e, a, h, depth, count, ids) && h <= height
    ensures Blames(e, a + b, height, depth, count, ids)
  {
    FreshConcat(a, b, ids);
  }

  lemma {:induction false} WalkBlames(level: seq<Component>, depth: nat, count: nat, ids: set<string>)
    requires count <= MAX_COMPONENTS && depth >= 1 && Walk(level, depth, count, ids).Err?
    ensures Blames(Walk(level, depth, count, ids).error, Ids(level), Height(level), depth, count, ids)
    decreases level, 1
  {
    if depth <= MAX_DEPTH {
      WalkEachBlames(level, depth, count, ids);
    } else {
      assert Height(level) >= 1;
    }
  }

  lemma {:induction false} WalkEachBlames(level: seq<Component>, depth: nat, count: nat, ids: set<string>)
    requires count <= MAX_COMPONENTS && 1 <= depth <= MAX_DEPTH && WalkEach(level, depth, count, ids).Err?
    ensures Blames(WalkEach(level, depth, count, ids).error, Ids(level), Height(level), depth, count, ids)
    decreases level, 0
  {
    var head, rest := [level[0].id] + Ids(level[0].children), Ids(level[1..]);
    var node := WalkNode(level[0], depth, count, ids);
    if node.Err? {
      WalkNodeBlames(level[0], depth, count, ids);
      BlamePart(node.error, head, rest, 1 + Height(level[0].children), Height(level), depth, count, ids);
    } else {
      WalkNodeIsExact(level[0], depth, count, ids);
      WalkEachBlames(level[1..], depth, node.value.count, node.value.ids);
      FreshConcat(head, rest, ids);
    }
  }

  lemma {:induction false} WalkNodeBlames(c: Component, depth: nat, count: nat, ids: set<string>)
    requires count <= MAX_COMPONENTS && 1 <= depth <= MAX_DEPTH && WalkNode(c, depth, count, ids).Err?
    ensures Blames(WalkNode(c, depth, count, ids).error, [c.id] + Ids(c.children), 1 + Height(c.children),
                   depth, count, ids)
    decreases c, 0
  {
    if count + 1 <= MAX_COMPONENTS && c.id !in ids {
      var below := Walk(c.children, depth + 1, count + 1, ids + {c.id});
      WalkBlames(c.children, depth + 1, count + 1, ids + {c.id});
      BlameBelow(below.error, c.id, Ids(c.children), Height(c.children), depth, count, ids);
    } else {
      BlameHere(c.id, Ids(c.children), ids);
    }
  }

  lemma BlameBelow(e: Error, id: string, found: seq<string>, height: nat, depth: nat, count: nat, ids: set<string>)
    requires id !in ids && Blames(e, found, height, depth + 1, count + 1, ids + {id})
    ensures Blames(e, [id] + found, 1 + height, depth, count, ids)
  {
    FreshConcat([id], found, ids);
    assert Members([id]) == {id};
  }

  lemma BlameHere(id: string, found: seq<string>, ids: set<string>)
    ensures id in ids ==> !Fresh([id] + found, ids)
  {
    assert ([id] + found)[0] == id;
  }

  /** An error names a limit that the forest exceeds: ids that repeat, more than 64 components,
      counted up to the 65th, or more than 4 levels. */
  lemma ErrorsAreTrue(level: seq<Component>)
    requires Normalize(level).Err?
    ensures
      match Normalize(level).error
      case DuplicateId => !Distinct(Ids(level))
      case TooManyComponents(actual) => actual == 65 && |Ids(level)| > 64
      case DepthExceeded => Height(level) > 4
  {
    WalkBlames(level, 1, 0, {});
  }

  /** The normaliser accepts exactly the acceptable forests and returns the canonical one. */
  lemma NormalizeIsExact(level: seq<Component>)
    ensures Normalize(level).Ok? <==> Acceptable(level)
    ensures Normalize(level).Ok? ==> Normalize(level).value == CanonicalLevel(level)
  {
    WalkIsExact(level, 1, 0, {});
  }
}
