/** The in-place traversal behind `normalize_components`: one counter and one id set shared by
    all levels, each level sorted where it lies. */
module ComponentNormalizer {
  import opened Results
  import opened Sorting
  import opened Components
  import opened ComponentForests

  lemma {:induction false} NodeReordered(c: Component, children: seq<Component>)
    requires Reordered(c.children, children)
    ensures SameNode(c, c.(children := children))
  {
  }

  class Normalizer {
    var count: nat
    var ids: set<string>

    constructor ()
      ensures count == 0 && ids == {}
    {
      count, ids := 0, {};
    }

    /** The loop body: counts and records one component, then normalises below it. */
    method Visit(level: array<Component>, i: nat, depth: nat) returns (r: Option<Error>)
      requires 1 <= depth <= MAX_DEPTH && i < level.Length
      modifies this, level
      ensures level[..i] == old(level[..i]) && level[i + 1..] == old(level[i + 1..])
      ensures r.None? ==> WalkNode(old(level[i]), depth, old(count), old(ids)) == Ok(Walked([level[i]], count, ids))
      ensures r.Some? ==> WalkNode(old(level[i]), depth, old(count), old(ids)) == Err(r.value)
      ensures SameNode(old(level[i]), level[i])
      decreases MAX_DEPTH + 1 - depth, 0
    {
      var component := level[i];
      ghost var goal := WalkNode(component, depth, count, ids);
      SameNodeSelf(component);
      count := count + 1;
      if count > MAX_COMPONENTS {
        return Some(TooManyComponents(count));
      }
      if component.id in ids {
        return Some(DuplicateId);
      }
      ids := ids + {component.id};
      assert goal == WithChildren(component, Walk(component.children, depth + 1, count, ids));
      r, component := Descend(component, depth + 1);
      level[i] := component;
    }

    /** Normalises the children of one component. */
    method Descend(c: Component, depth: nat) returns (r: Option<Error>, normalized: Component)
      requires 2 <= depth <= MAX_DEPTH + 1
      modifies this
      ensures r.None? ==>
                WithChildren(c, Walk(c.children, depth, old(count), old(ids))) == Ok(Walked([normalized], count, ids))
      ensures r.Some? ==> WithChildren(c, Walk(c.children, depth, old(count), old(ids))) == Err(r.value)
      ensures SameNode(c, normalized)
      decreases MAX_DEPTH + 1 - depth, 3
    {
      var below := c.children;
      var children := new Component[|below|](j requires 0 <= j < |below| => below[j]);
      assert children[..] == c.children;
      r := NormalizeLevel(children, depth);
      NodeReordered(c, children[..]);
      normalized := c.(children := children[..]);
    }

    /** The loop over one level. */
    method VisitEach(level: array<Component>, depth: nat) returns (r: Option<Error>)
      requires 1 <= depth <= MAX_DEPTH
      modifies this, level
      ensures r.None? ==> WalkEach(old(level[..]), depth, old(count), old(ids)) == Ok(Walked(level[..], count, ids))
      ensures r.Some? ==> WalkEach(old(level[..]), depth, old(count), old(ids)) == Err(r.value)
      ensures Reordered(old(level[..]), level[..])
      decreases MAX_DEPTH + 1 - depth, 1
    {
      ghost var before := level[..];
      ghost var start := WalkEach(before, depth, count, ids);
      assert before[0..] == before && level[..0] == [];
      PrependNothing(start);
      for i := 0 to level.Length
        invariant level[i..] == before[i..]
        invariant SameNodes(before[..i], level[..i])
        invariant start == Prepend(level[..i], WalkEach(before[i..], depth, count, ids))
      {
        ghost var tail := before[i + 1..];
        assert before[i..][0] == before[i] == level[i..][0] && before[i..][1..] == tail;
        ghost var done := level[..i];
        r := Visit(level, i, depth);
        assert level[..i + 1] == done + [level[i]] && level[i + 1..] == tail;
        assert before[..i + 1] == before[..i] + [before[i]];
        if r.Some? {
          SameNodesReordered(before, level[..], i + 1);
          return;
        }
        PrependTwice(done, [level[i]], WalkEach(tail, depth, count, ids));
      }
      SameNodesReordered(before, level[..], level.Length);
      assert level[..level.Length] == level[..] && before[level.Length..] == [];
      assert level[..] + [] == level[..];
      r := None;
    }

    /** Ends like `Walk` on the old contents. After an error the level is half-done, but
        every component still lies under its own parent. */
    method NormalizeLevel(level: array<Component>, depth: nat) returns (r: Option<Error>)
      requires 1 <= depth <= MAX_DEPTH + 1
      modifies this, level
      ensures r.None? ==> Walk(old(level[..]), depth, old(count), old(ids)) == Ok(Walked(level[..], count, ids))
      ensures r.Some? ==> Walk(old(level[..]), depth, old(count), old(ids)) == Err(r.value)
      ensures Reordered(old(level[..]), level[..])
      decreases MAX_DEPTH + 1 - depth, 2
    {
      ghost var before := level[..];
      ReorderedSelf(before);
      if level.Length == 0 {
        return None;
      }
      if depth > MAX_DEPTH {
        return Some(DepthExceeded);
      }
      r := VisitEach(level, depth);
      if r.None? {
        ghost var visited := level[..];
        SortLevel(level);
        ReorderedTransitive(before, visited, level[..]);
      }
    }
  }

  method SortLevel(level: array<Component>)
    modifies level
    ensures level[..] == Sort(AtMost, old(level[..]))
    ensures Reordered(old(level[..]), level[..])
  {
    SortReorders(level[..]);
    var sorted := Sort(AtMost, level[..]);
    forall i | 0 <= i < level.Length {
      level[i] := sorted[i];
    }
    assert level[..] == sorted;
  }

  ghost predicate SameNodes(a: seq<Component>, b: seq<Component>) {
    |a| == |b| && forall j :: 0 <= j < |a| ==> SameNode(a[j], b[j])
  }

  function Prepend(done: seq<Component>, rest: Result<Walked, Error>): Result<Walked, Error> {
    match rest
    case Ok(w) => Ok(w.(level := done + w.level))
    case Err(e) => Err(e)
  }

  lemma PrependNothing(rest: Result<Walked, Error>)
    ensures Prepend([], rest) == rest
  {
    if rest.Ok? {
      assert [] + rest.value.level == rest.value.level;
    }
  }

  lemma PrependTwice(a: seq<Component>, b: seq<Component>, rest: Result<Walked, Error>)
    ensures Prepend(a, Prepend(b, rest)) == Prepend(a + b, rest)
  {
    if rest.Ok? {
      assert a + (b + rest.value.level) == a + b + rest.value.level;
    }
  }

  lemma SameNodesReordered(before: seq<Component>, after: seq<Component>, i: nat)
    requires |before| == |after| && i <= |before| && before[i..] == after[i..]
    requires SameNodes(before[..i], after[..i])
    ensures Reordered(before, after)
  {
    forall j | 0 <= j < |before| ensures SameNode(before[j], after[j]) {
      if j < i {
        assert before[j] == before[..i][j] && after[j] == after[..i][j];
      } else {
        assert before[j] == before[i..][j - i] == after[i..][j - i] == after[j];
        SameNodeSelf(before[j]);
      }
    }
    ReorderedPointwise(before, after);
  }

  /** Sorting a level reorders it. */
  lemma {:induction false} SortReorders(level: seq<Component>)
    ensures Reordered(level, Sort(AtMost, level))
  {
    if level != [] {
      SortReorders(level[1..]);
      var k := InsertPlace(level[0], Sort(AtMost, level[1..]));
      SameNodeSelf(level[0]);
      ReorderedFrom(level, Sort(AtMost, level), k);
    }
  }

  /** Normalises a forest where it lies. It succeeds exactly on the acceptable forests, whose
      canonical arrangement it leaves behind. */
  method NormalizeComponents(forest: array<Component>) returns (r: Option<Error>)
    modifies forest
    ensures r.None? <==> Acceptable(old(forest[..]))
    ensures r.None? ==> forest[..] == CanonicalLevel(old(forest[..])) && Ascending(forest[..])
    ensures Reordered(old(forest[..]), forest[..])
  {
    NormalizeIsExact(forest[..]);
    if Acceptable(forest[..]) {
      CanonicalAscends(forest[..]);
    }
    var normalizer := new Normalizer();
    r := normalizer.NormalizeLevel(forest, 1);
  }
}
