/** The normalised forest is a canonical form: it depends on the input only up to the order
    of siblings, and it determines the input up to that order. */
module ComponentForests {
  import opened Results
  import opened Sorting
  import opened Components
  import opened Sequences
  import Text

  // ----- reordering is an equivalence -----

  lemma {:induction false} ReorderedSelf(level: seq<Component>)
    ensures Reordered(level, level)
    decreases level, 0
  {
    if level != [] {
      SameNodeSelf(level[0]);
      ReorderedSelf(level[1..]);
      assert Without(level, 0) == level[1..];
    }
  }

  lemma {:induction false} SameNodeSelf(c: Component)
    ensures SameNode(c, c)
    decreases c, 1
  {
    ReorderedSelf(c.children);
  }

  /** Where element `n` of `c` without element `j` sits in `c`. */
  function Shift(n: nat, j: nat): nat {
    if n < j then n else n + 1
  }

  lemma WithoutTwice<T>(c: seq<T>, j: nat, n: nat)
    requires j < |c| && n < |c| - 1
    ensures var m, h := Shift(n, j), if j < Shift(n, j) then j else j - 1;
            && m < |c| && 0 <= h < |c| - 1
            && Without(c, j)[n] == c[m] && Without(c, m)[h] == c[j]
            && Without(Without(c, m), h) == Without(Without(c, j), n)
  {
    var m, h := Shift(n, j), if j < Shift(n, j) then j else j - 1;
    var a, b := Without(Without(c, m), h), Without(Without(c, j), n);
    forall i | 0 <= i < |c| - 2 ensures a[i] == b[i] {
      assert a[i] == c[Shift(Shift(i, h), m)] && b[i] == c[Shift(Shift(i, n), j)];
    }
  }

  lemma ReorderedFrom(a: seq<Component>, b: seq<Component>, k: nat)
    requires a != [] && k < |b| && SameNode(a[0], b[k]) && Reordered(a[1..], Without(b, k))
    ensures Reordered(a, b)
  {
  }

  /** Reordering lets any component of the left side be matched first. */
  lemma {:induction false} Extract(b: seq<Component>, c: seq<Component>, k: nat) returns (m: nat)
    requires k < |b| && Reordered(b, c)
    ensures m < |c| && SameNode(b[k], c[m]) && Reordered(Without(b, k), Without(c, m))
    decreases b
  {
    var j: nat :| j < |c| && SameNode(b[0], c[j]) && Reordered(b[1..], Without(c, j));
    if k == 0 {
      assert Without(b, 0) == b[1..];
      return j;
    }
    var n := Extract(b[1..], Without(c, j), k - 1);
    WithoutTwice(c, j, n);
    m := Shift(n, j);
    WithoutHead(b, k);
    assert Without(b, k)[1..] == Without(b[1..], k - 1);
    ReorderedFrom(Without(b, k), Without(c, m), if j < m then j else j - 1);
  }

  lemma {:induction false} ReorderedTransitive(a: seq<Component>, b: seq<Component>, c: seq<Component>)
    requires Reordered(a, b) && Reordered(b, c)
    ensures Reordered(a, c)
    decreases a, 0
  {
    if a != [] {
      var k :| 0 <= k < |b| && SameNode(a[0], b[k]) && Reordered(a[1..], Without(b, k));
      var m := Extract(b, c, k);
      SameNodeTransitive(a[0], b[k], c[m]);
      ReorderedTransitive(a[1..], Without(b, k), Without(c, m));
    }
  }

  lemma {:induction false} SameNodeTransitive(a: Component, b: Component, c: Component)
    requires SameNode(a, b) && SameNode(b, c)
    ensures SameNode(a, c)
    decreases a, 1
  {
    ReorderedTransitive(a.children, b.children, c.children);
  }

  lemma WithoutPastHead<T>(x: T, rest: seq<T>, j: nat)
    requires j < |rest|
    ensures Without([x] + rest, 0) == rest
    ensures Without([x] + rest, j + 1) == [x] + Without(rest, j) && ([x] + rest)[j + 1] == rest[j]
  {
  }

  lemma FindPartner(b: seq<Component>, k: nat, rest: seq<Component>) returns (j: nat)
    requires 0 < k < |b| && Reordered(Without(b, k), rest)
    ensures j < |rest| && SameNode(b[0], rest[j]) && Reordered(Without(b[1..], k - 1), Without(rest, j))
  {
    WithoutHead(b, k);
    assert Without(b, k)[1..] == Without(b[1..], k - 1) && Without(b, k)[0] == b[0];
    j :| j < |rest| && SameNode(b[0], rest[j]) && Reordered(Without(b, k)[1..], Without(rest, j));
  }

  lemma {:induction false} ReorderedWith(b: seq<Component>, k: nat, x: Component, rest: seq<Component>)
    requires k < |b| && SameNode(b[k], x) && Reordered(Without(b, k), rest)
    ensures Reordered(b, [x] + rest)
    decreases k
  {
    if k == 0 {
      assert Without(b, 0) == b[1..] && Without([x] + rest, 0) == rest;
      ReorderedFrom(b, [x] + rest, 0);
    } else {
      var j := FindPartner(b, k, rest);
      ReorderedWith(b[1..], k - 1, x, Without(rest, j));
      WithoutPastHead(x, rest, j);
      ReorderedFrom(b, [x] + rest, j + 1);
    }
  }

  lemma {:induction false} ReorderedSymmetric(a: seq<Component>, b: seq<Component>)
    requires Reordered(a, b)
    ensures Reordered(b, a)
    decreases a, 0
  {
    if a != [] {
      var k :| 0 <= k < |b| && SameNode(a[0], b[k]) && Reordered(a[1..], Without(b, k));
      SameNodeSymmetric(a[0], b[k]);
      ReorderedSymmetric(a[1..], Without(b, k));
      ReorderedWith(b, k, a[0], a[1..]);
      assert a == [a[0]] + a[1..];
    }
  }

  lemma {:induction false} SameNodeSymmetric(a: Component, b: Component)
    requires SameNode(a, b)
    ensures SameNode(b, a)
    decreases a, 1
  {
    ReorderedSymmetric(a.children, b.children);
  }

  /** Replacing components in place by reordered ones reorders the level. */
  lemma {:induction false} ReorderedPointwise(a: seq<Component>, b: seq<Component>)
    requires |a| == |b| && forall i :: 0 <= i < |a| ==> SameNode(a[i], b[i])
    ensures Reordered(a, b)
  {
    if a != [] {
      assert Without(b, 0) == b[1..];
      ReorderedPointwise(a[1..], b[1..]);
    }
  }

  // ----- what reordering keeps -----

  ghost function IdBag(c: Component): multiset<string> {
    multiset{c.id} + multiset(Ids(c.children))
  }

  lemma IdsOfHead(level: seq<Component>)
    requires level != []
    ensures multiset(Ids(level)) == IdBag(level[0]) + multiset(Ids(level[1..]))
  {
    assert multiset([level[0].id]) == multiset{level[0].id};
  }

  function Max(a: nat, b: nat): nat {
    if a > b then a else b
  }

  lemma {:induction false} IdsWithout(level: seq<Component>, k: nat)
    requires k < |level|
    ensures multiset(Ids(level)) == IdBag(level[k]) + multiset(Ids(Without(level, k)))
    decreases k
  {
    IdsOfHead(level);
    if k == 0 {
      assert Without(level, 0) == level[1..];
    } else {
      IdsWithout(level[1..], k - 1);
      WithoutHead(level, k);
      assert Without(level, k)[1..] == Without(level[1..], k - 1);
      IdsOfHead(Without(level, k));
    }
  }

  lemma {:induction false} HeightWithout(level: seq<Component>, k: nat)
    requires k < |level|
    ensures Height(level) == Max(1 + Height(level[k].children), Height(Without(level, k)))
    decreases k
  {
    if k == 0 {
      assert Without(level, 0) == level[1..];
    } else {
      HeightWithout(level[1..], k - 1);
      WithoutHead(level, k);
      assert Without(level, k)[1..] == Without(level[1..], k - 1);
    }
  }

  lemma EachOfHead(level: seq<Component>)
    requires level != []
    ensures multiset(CanonicalEach(level)) == multiset{Canonical(level[0])} + multiset(CanonicalEach(level[1..]))
  {
    var head, rest := Canonical(level[0]), CanonicalEach(level[1..]);
    assert CanonicalEach(level) == [head] + rest;
  }

  lemma {:induction false} CanonicalEachWithout(level: seq<Component>, k: nat)
    requires k < |level|
    ensures multiset(CanonicalEach(level)) == multiset{Canonical(level[k])} + multiset(CanonicalEach(Without(level, k)))
    decreases k
  {
    EachOfHead(level);
    if k == 0 {
      assert Without(level, 0) == level[1..];
    } else {
      CanonicalEachWithout(level[1..], k - 1);
      WithoutHead(level, k);
      assert Without(level, k)[1..] == Without(level[1..], k - 1);
      EachOfHead(Without(level, k));
    }
  }

  lemma {:induction false} ReorderedKeepsIds(a: seq<Component>, b: seq<Component>)
    requires Reordered(a, b)
    ensures multiset(Ids(a)) == multiset(Ids(b))
    decreases a, 0
  {
    if a != [] {
      var k: nat :| k < |b| && SameNode(a[0], b[k]) && Reordered(a[1..], Without(b, k));
      IdsOfHead(a);
      IdsWithout(b, k);
      ReorderedKeepsIds(a[0].children, b[k].children);
      ReorderedKeepsIds(a[1..], Without(b, k));
    }
  }

  lemma {:induction false} ReorderedKeepsHeight(a: seq<Component>, b: seq<Component>)
    requires Reordered(a, b)
    ensures Height(a) == Height(b)
    decreases a, 0
  {
    if a != [] {
      var k: nat :| k < |b| && SameNode(a[0], b[k]) && Reordered(a[1..], Without(b, k));
      HeightWithout(b, k);
      ReorderedKeepsHeight(a[0].children, b[k].children);
      ReorderedKeepsHeight(a[1..], Without(b, k));
    }
  }

  lemma {:induction false} DistinctByCount(s: seq<string>)
    ensures Distinct(s) <==> forall x :: multiset(s)[x] <= 1
  {
    if s != [] {
      assert s == [s[0]] + s[1..];
      DistinctByCount(s[1..]);
      DistinctConcat([s[0]], s[1..]);
      assert multiset(s) == multiset{s[0]} + multiset(s[1..]);
      if forall x :: multiset(s)[x] <= 1 {
        assert multiset(s)[s[0]] == 1 + multiset(s[1..])[s[0]];
        assert forall x :: multiset(s[1..])[x] <= multiset(s)[x];
      }
    }
  }

  lemma ReorderedKeepsAcceptable(a: seq<Component>, b: seq<Component>)
    requires Reordered(a, b)
    ensures Acceptable(a) <==> Acceptable(b)
  {
    ReorderedKeepsIds(a, b);
    ReorderedKeepsHeight(a, b);
    DistinctByCount(Ids(a));
    DistinctByCount(Ids(b));
    assert |Ids(a)| == |multiset(Ids(a))| == |multiset(Ids(b))| == |Ids(b)|;
  }

  // ----- the order on siblings -----

  predicate DistinctSiblings(level: seq<Component>) {
    forall i, j :: 0 <= i < j < |level| ==> level[i].id != level[j].id
  }

  lemma {:induction false} IdOfMember(level: seq<Component>, i: nat)
    requires i < |level|
    ensures level[i].id in Ids(level)
  {
    if i > 0 {
      IdOfMember(level[1..], i - 1);
    }
  }

  lemma {:induction false} DistinctIdsSeparate(level: seq<Component>)
    requires Distinct(Ids(level))
    ensures DistinctSiblings(level)
    ensures DistinctBelow(level)
  {
    if level != [] {
      var head, rest := level[0], level[1..];
      DistinctConcat([head.id] + Ids(head.children), Ids(rest));
      DistinctConcat([head.id], Ids(head.children));
      DistinctIdsSeparate(rest);
      forall i, j | 0 <= i < j < |level| ensures level[i].id != level[j].id {
        if i == 0 {
          IdOfMember(rest, j - 1);
          assert head.id in [head.id] + Ids(head.children);
        }
      }
    }
  }

  lemma {:induction false} CompareSelf(c: Component)
    ensures Compare(c, c).Equal?
    decreases c, 1
  {
    CompareLevelSelf(c.children);
  }

  lemma {:induction false} CompareLevelSelf(level: seq<Component>)
    ensures CompareLevels(level, level).Equal?
    decreases level, 0
  {
    if level != [] {
      CompareSelf(level[0]);
      CompareLevelSelf(level[1..]);
    }
  }

  /** Distinct ids make the component order a total order on one level. */
  lemma DistinctSiblingsOrdered(level: seq<Component>)
    requires DistinctSiblings(level)
    ensures Orders(AtMost, level) && Antisymmetric(AtMost, level)
  {
    forall x, y | x in level && y in level
      ensures x.id == y.id ==> x == y && AtMost(x, y)
      ensures x.id != y.id ==> AtMost(x, y) == Text.AtMost(x.id, y.id) && AtMost(y, x) == !AtMost(x, y)
    {
      CompareSelf(x);
      Text.CompareFlips(x.id, y.id);
    }
    forall x, y, z | x in level && y in level && z in level && AtMost(x, y) && AtMost(y, z)
      ensures AtMost(x, z)
    {
      if x.id != y.id && y.id != z.id {
        Text.CompareTransitive(x.id, y.id, z.id);
      }
    }
  }

  // ----- the canonical form -----

  lemma {:induction false} InsertPlace(x: Component, s: seq<Component>) returns (k: nat)
    ensures k <= |s| && Insert(AtMost, x, s)[k] == x && Without(Insert(AtMost, x, s), k) == s
  {
    if s == [] || AtMost(x, s[0]) {
      k := 0;
    } else {
      k := InsertPlace(x, s[1..]);
      k := k + 1;
      WithoutHead(Insert(AtMost, x, s), k);
      assert Insert(AtMost, x, s)[1..] == Insert(AtMost, x, s[1..]);
      assert s == [s[0]] + s[1..];
    }
  }

  /** Normalising moves components among their siblings only: each stays under its parent. */
  lemma {:induction false} CanonicalReorders(level: seq<Component>)
    ensures Reordered(level, CanonicalLevel(level))
    decreases level, 0
  {
    if level != [] {
      var rest := CanonicalEach(level[1..]);
      CanonicalReorders(level[1..]);
      assert CanonicalEach(level)[1..] == rest;
      var k := InsertPlace(Canonical(level[0]), Sort(AtMost, rest));
      CanonicalReorders(level[0].children);
      assert SameNode(level[0], Canonical(level[0]));
    }
  }

  lemma CanonicalKeepsSiblings(level: seq<Component>)
    requires DistinctSiblings(level)
    ensures DistinctSiblings(CanonicalEach(level))
  {
  }

  ghost predicate DistinctBelow(level: seq<Component>) {
    forall i :: 0 <= i < |level| ==> Distinct(Ids(level[i].children))
  }

  lemma {:induction false} ReorderedCanonicalEach(a: seq<Component>, b: seq<Component>)
    requires Reordered(a, b) && DistinctBelow(a)
    ensures multiset(CanonicalEach(a)) == multiset(CanonicalEach(b))
    decreases a, 1
  {
    if a != [] {
      var k: nat :| k < |b| && SameNode(a[0], b[k]) && Reordered(a[1..], Without(b, k));
      assert DistinctBelow(a[1..]) by { assert forall i :: 0 <= i < |a[1..]| ==> a[1..][i] == a[i + 1]; }
      ReorderedCanonicalEach(a[1..], Without(b, k));
      ReorderedCanonicalLevel(a[0].children, b[k].children);
      assert Canonical(a[0]) == Canonical(b[k]);
      CanonicalEachWithout(b, k);
      EachOfHead(a);
    }
  }

  lemma {:induction false} ReorderedCanonicalLevel(a: seq<Component>, b: seq<Component>)
    requires Reordered(a, b) && Distinct(Ids(a))
    ensures CanonicalLevel(a) == CanonicalLevel(b)
    decreases a, 2
  {
    DistinctIdsSeparate(a);
    ReorderedCanonicalEach(a, b);
    CanonicalKeepsSiblings(a);
    DistinctSiblingsOrdered(CanonicalEach(a));
    SortIgnoresOrder(AtMost, CanonicalEach(a), CanonicalEach(b));
  }

  /** Two acceptable forests normalise to the same forest exactly when they differ only in
      the order of siblings; forests that do are accepted or rejected together. */
  lemma NormalizeIsCanonical(a: seq<Component>, b: seq<Component>)
    ensures Reordered(a, b) ==> (Normalize(a).Ok? <==> Normalize(b).Ok?)
    ensures Normalize(a).Ok? && Normalize(b).Ok? ==> (Normalize(a) == Normalize(b) <==> Reordered(a, b))
  {
    NormalizeIsExact(a);
    NormalizeIsExact(b);
    if Reordered(a, b) {
      ReorderedKeepsAcceptable(a, b);
      if Normalize(a).Ok? {
        ReorderedCanonicalLevel(a, b);
      }
    } else if Normalize(a).Ok? && Normalize(a) == Normalize(b) {
      CanonicalReorders(a);
      CanonicalReorders(b);
      ReorderedSymmetric(b, CanonicalLevel(b));
      ReorderedTransitive(a, CanonicalLevel(a), b);
    }
  }

  /** Normalising a normalised forest changes nothing. */
  lemma NormalizeIsIdempotent(level: seq<Component>)
    requires Normalize(level).Ok?
    ensures Normalize(Normalize(level).value) == Normalize(level)
  {
    NormalizeIsExact(level);
    CanonicalReorders(level);
    NormalizeIsCanonical(level, CanonicalLevel(level));
  }

  // ----- ascending ids -----

  /** At every level the ids of siblings go up. */
  ghost predicate Ascending(level: seq<Component>)
    decreases level
  {
    && (forall i, j :: 0 <= i < j < |level| ==> Text.Precedes(level[i].id, level[j].id))
    && forall i :: 0 <= i < |level| ==> Ascending(level[i].children)
  }

  lemma OrderIsById(a: Component, b: Component)
    requires a.id != b.id
    ensures AtMost(a, b) <==> Text.Precedes(a.id, b.id)
  {
    Text.LessIsPrecedes(a.id, b.id);
  }

  lemma PrecedesDiffers(a: string, b: string)
    requires Text.Precedes(a, b)
    ensures a != b
  {
    Text.LessIsPrecedes(a, b);
  }

  lemma {:induction false} CanonicalAscends(level: seq<Component>)
    requires Distinct(Ids(level))
    ensures Ascending(CanonicalLevel(level))
    decreases level
  {
    var each, r := CanonicalEach(level), CanonicalLevel(level);
    DistinctIdsSeparate(level);
    CanonicalKeepsSiblings(level);
    DistinctSiblingsOrdered(each);
    SortSorts(AtMost, each);
    SameMembers(r, each);
    forall i | 0 <= i < |r| ensures Ascending(r[i].children) {
      assert r[i] in each;
      var k :| 0 <= k < |each| && each[k] == r[i];
      CanonicalAscends(level[k].children);
    }
    SortedSiblingsAreDistinct(each, r);
    forall i, j | 0 <= i < j < |r| ensures Text.Precedes(r[i].id, r[j].id) {
      OrderIsById(r[i], r[j]);
    }
  }

  lemma SortedSiblingsAreDistinct(each: seq<Component>, r: seq<Component>)
    requires DistinctSiblings(each) && multiset(r) == multiset(each)
    ensures DistinctSiblings(r)
  {
    forall i, j | 0 <= i < j < |r| ensures r[i].id != r[j].id {
      if r[i].id == r[j].id {
        assert r[i] in multiset(each) && r[j] in multiset(each);
        var m :| 0 <= m < |each| && each[m] == r[i];
        var n :| 0 <= n < |each| && each[n] == r[j];
        assert m == n;
        OnceInBag(each, m);
        TwiceInBag(r, i, j);
      }
    }
  }

  lemma OnceInBag(each: seq<Component>, m: nat)
    requires DistinctSiblings(each) && m < |each|
    ensures multiset(each)[each[m]] == 1
  {
    BagWithout(each, m);
    var rest := Without(each, m);
    forall i | 0 <= i < |rest| ensures rest[i] != each[m] {
      assert rest[i] == each[Shift(i, m)];
    }
  }

  lemma TwiceInBag(r: seq<Component>, i: nat, j: nat)
    requires i < j < |r| && r[i] == r[j]
    ensures multiset(r)[r[i]] >= 2
  {
    BagWithout(r, j);
    assert Without(r, j)[i] == r[i];
  }

  lemma {:induction false} AscendingIsCanonical(level: seq<Component>)
    requires Ascending(level)
    ensures CanonicalLevel(level) == level
    decreases level
  {
    forall i | 0 <= i < |level| ensures Canonical(level[i]) == level[i] {
      AscendingIsCanonical(level[i].children);
    }
    assert CanonicalEach(level) == level;
    forall i, j | 0 <= i < j < |level| ensures AtMost(level[i], level[j]) {
      PrecedesDiffers(level[i].id, level[j].id);
      OrderIsById(level[i], level[j]);
    }
    SortOfSorted(AtMost, level);
  }

  /** The result of normalising is the one reordering of the siblings in which their ids go up at
      every level; there is a result exactly for distinct ids, at most 64 components and at most 4
      levels. */
  lemma NormalizeSortsById(level: seq<Component>, result: seq<Component>)
    ensures Normalize(level) == Ok(result)
       <==> && Distinct(Ids(level)) && |Ids(level)| <= 64 && Height(level) <= 4
            && Reordered(level, result) && Ascending(result)
  {
    NormalizeIsExact(level);
    if Acceptable(level) {
      CanonicalAscends(level);
      CanonicalReorders(level);
      if Reordered(level, result) && Ascending(result) {
        ReorderedCanonicalLevel(level, result);
        AscendingIsCanonical(result);
      }
    }
  }

  /** Building a component normalises its children, then the component alone. */
  function NewComponent(c: Component): Result<Component, Error> {
    match Normalize(c.children)
    case Err(e) => Err(e)
    case Ok(children) =>
      match Normalize([c.(children := children)])
      case Err(e) => Err(e)
      case Ok(level) => if |level| == 1 then Ok(level[0]) else Err(DuplicateId)
  }

  lemma IdsOfSingleton(c: Component)
    ensures Ids([c]) == [c.id] + Ids(c.children) && Height([c]) == 1 + Height(c.children)
    ensures CanonicalLevel([c]) == [Canonical(c)]
  {
    assert [c][1..] == [];
    var d := Canonical(c);
    assert CanonicalEach([c]) == [d] && [d][1..] == [];
  }

  lemma AcceptableBelow(c: Component)
    requires Acceptable([c])
    ensures Acceptable(c.children)
  {
    IdsOfSingleton(c);
    DistinctConcat([c.id], Ids(c.children));
  }

  /** The second pass of `NewComponent` checks the whole subtree and finds it in order. */
  lemma NewComponentIsCanonical(c: Component)
    ensures NewComponent(c).Ok? <==> Acceptable([c])
    ensures NewComponent(c).Ok? ==> NewComponent(c).value == Canonical(c)
  {
    NormalizeIsExact(c.children);
    if Acceptable(c.children) {
      var d := Canonical(c);
      CanonicalReorders(c.children);
      ReorderedPointwise([c], [d]);
      NormalizeIsExact([c]);
      NormalizeIsExact([d]);
      NormalizeIsCanonical([c], [d]);
      IdsOfSingleton(c);
    } else if Acceptable([c]) {
      AcceptableBelow(c);
    }
  }
}
