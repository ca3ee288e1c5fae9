/** Stable sorting by a comparison, as the Rust `sort` family does it. */
module Sorting {
  /** `leq` is total and transitive on the elements of `s`. */
  ghost predicate Orders<T(!new)>(leq: (T, T) -> bool, s: seq<T>) {
    && (forall x, y :: x in s && y in s ==> leq(x, y) || leq(y, x))
    && (forall x, y, z :: x in s && y in s && z in s && leq(x, y) && leq(y, z) ==> leq(x, z))
  }

  /** Elements of `s` that tie under `leq` are the same value. */
  ghost predicate Antisymmetric<T(!new)>(leq: (T, T) -> bool, s: seq<T>) {
    forall x, y :: x in s && y in s && leq(x, y) && leq(y, x) ==> x == y
  }

  ghost predicate Sorted<T>(leq: (T, T) -> bool, s: seq<T>) {
    forall i, j :: 0 <= i < j < |s| ==> leq(s[i], s[j])
  }

  /** Puts `x` in front of the first element it does not exceed. */
  function Insert<T>(leq: (T, T) -> bool, x: T, s: seq<T>): (r: seq<T>)
    ensures |r| == |s| + 1
    ensures multiset(r) == multiset{x} + multiset(s)
  {
    if s == [] then [x]
    else if leq(x, s[0]) then [x] + s
    else
      assert s == [s[0]] + s[1..];
      [s[0]] + Insert(leq, x, s[1..])
  }

  function Sort<T>(leq: (T, T) -> bool, s: seq<T>): (r: seq<T>)
    ensures |r| == |s|
    ensures multiset(r) == multiset(s)
  {
    if s == [] then []
    else
      assert s == [s[0]] + s[1..];
      Insert(leq, s[0], Sort(leq, s[1..]))
  }

  lemma SameMembers<T>(a: seq<T>, b: seq<T>)
    requires multiset(a) == multiset(b)
    ensures |a| == |b|
    ensures forall x :: x in a <==> x in b
  {
    assert |multiset(a)| == |multiset(b)|;
    forall x ensures x in a <==> x in b {
      assert x in multiset(a) <==> x in multiset(b);
    }
  }

  lemma NoMembers<T(!new)>(s: seq<T>)
    ensures (forall x :: x !in s) ==> s == []
  {
    assert s == [] || s[0] in s;
  }

  lemma {:induction false} InsertSorts<T(!new)>(leq: (T, T) -> bool, x: T, s: seq<T>)
    requires Orders(leq, [x] + s) && Sorted(leq, s)
    ensures Sorted(leq, Insert(leq, x, s))
  {
    if s == [] {
    } else if leq(x, s[0]) {
      var r := [x] + s;
      forall j | 0 < j < |r| ensures leq(x, r[j]) {
        assert r[1] in r && r[j] in r && x in r;
        assert r[j] == s[j - 1];
      }
    } else {
      var tail := Insert(leq, x, s[1..]);
      InsertSorts(leq, x, s[1..]);
      SameMembers(tail, [x] + s[1..]);
      forall y | y in tail ensures leq(s[0], y) {
        assert y in [x] + s[1..];
        assert s[0] in [x] + s && x in [x] + s;
      }
    }
  }

  lemma {:induction false} SortSorts<T(!new)>(leq: (T, T) -> bool, s: seq<T>)
    requires Orders(leq, s)
    ensures Sorted(leq, Sort(leq, s))
  {
    if s != [] {
      SortSorts(leq, s[1..]);
      SameMembers(Sort(leq, s[1..]), s[1..]);
      assert forall x :: x in [s[0]] + Sort(leq, s[1..]) ==> x in s;
      InsertSorts(leq, s[0], Sort(leq, s[1..]));
    }
  }

  lemma SortedHeadIsLeast<T(!new)>(leq: (T, T) -> bool, s: seq<T>, x: T)
    requires Sorted(leq, s) && Orders(leq, s) && x in s
    ensures leq(s[0], x)
  {
    var i :| 0 <= i < |s| && s[i] == x;
    assert s[0] in s;
    assert leq(s[0], s[0]);
  }

  lemma BagOfTail<T>(s: seq<T>)
    requires s != []
    ensures multiset(s[1..]) == multiset(s) - multiset{s[0]}
  {
    assert s == [s[0]] + s[1..];
  }

  lemma TailKeepsOrder<T(!new)>(leq: (T, T) -> bool, s: seq<T>)
    requires s != [] && Sorted(leq, s) && Orders(leq, s) && Antisymmetric(leq, s)
    ensures Sorted(leq, s[1..]) && Orders(leq, s[1..]) && Antisymmetric(leq, s[1..])
  {
    assert forall x :: x in s[1..] ==> x in s;
  }

  lemma SortedTail<T(!new)>(leq: (T, T) -> bool, s: seq<T>)
    requires s != [] && Sorted(leq, s)
    ensures Sorted(leq, s[1..])
  {
  }

  lemma HeadsAgree<T(!new)>(leq: (T, T) -> bool, a: seq<T>, b: seq<T>)
    requires a != [] && b != [] && multiset(a) == multiset(b)
    requires Sorted(leq, a) && Sorted(leq, b) && Orders(leq, a) && Antisymmetric(leq, a)
    ensures a[0] == b[0]
  {
    SameMembers(a, b);
    assert a[0] in a && b[0] in b;
    OrderOfSameBag(leq, a, b);
    SortedHeadIsLeast(leq, a, b[0]);
    SortedHeadIsLeast(leq, b, a[0]);
  }

  lemma OrderOfSameBag<T(!new)>(leq: (T, T) -> bool, a: seq<T>, b: seq<T>)
    requires multiset(a) == multiset(b) && Orders(leq, a) && Antisymmetric(leq, a)
    ensures Orders(leq, b) && Antisymmetric(leq, b)
  {
    SameMembers(a, b);
  }

  /** The first half of a sorted sequence is sorted and before the second. */
  lemma SortedParts<T(!new)>(leq: (T, T) -> bool, s: seq<T>, k: nat)
    requires Sorted(leq, s) && k <= |s|
    ensures Sorted(leq, s[..k]) && multiset(s[..k]) <= multiset(s)
    ensures multiset(s) - multiset(s[..k]) == multiset(s[k..])
    ensures forall x, y :: x in s[..k] && y in s[k..] ==> leq(x, y)
  {
    assert s == s[..k] + s[k..];
    forall x, y | x in s[..k] && y in s[k..] ensures leq(x, y) {
      var i :| 0 <= i < k && s[..k][i] == x;
      var j :| 0 <= j < |s| - k && s[k..][j] == y;
      assert s[i] == x && s[k + j] == y;
    }
  }

  /** Two sorted sequences, the first before the second, are sorted together. */
  lemma SortedJoin<T(!new)>(leq: (T, T) -> bool, a: seq<T>, b: seq<T>, bag: multiset<T>)
    requires Sorted(leq, a) && Sorted(leq, b) && multiset(b) == bag
    requires forall x, y :: x in a && y in bag ==> leq(x, y)
    ensures Sorted(leq, a + b)
  {
    forall i, j | 0 <= i < |a| && 0 <= j < |b| ensures leq(a[i], b[j]) {
      assert a[i] in a && b[j] in multiset(b);
    }
  }

  lemma BagAsSeq<T(!new)>(bag: multiset<T>) returns (s: seq<T>)
    ensures multiset(s) == bag
  {
    if bag == multiset{} {
      return [];
    }
    var x :| x in bag;
    var rest := BagAsSeq(bag - multiset{x});
    s := [x] + rest;
  }

  lemma SameSize<T>(a: seq<T>, b: seq<T>)
    requires multiset(a) == multiset(b)
    ensures |a| == |b|
  {
    assert |multiset(a)| == |multiset(b)|;
  }

  lemma SameHeadAndTail<T>(a: seq<T>, b: seq<T>)
    requires a != [] && b != [] && a[0] == b[0] && a[1..] == b[1..]
    ensures a == b
  {
    assert a == [a[0]] + a[1..] && b == [b[0]] + b[1..];
  }

  lemma TailsAgree<T(!new)>(leq: (T, T) -> bool, a: seq<T>, b: seq<T>)
    requires a != [] && b != [] && multiset(a) == multiset(b)
    requires Sorted(leq, a) && Sorted(leq, b) && Orders(leq, a) && Antisymmetric(leq, a)
    ensures a[0] == b[0] && multiset(a[1..]) == multiset(b[1..])
    ensures Sorted(leq, a[1..]) && Sorted(leq, b[1..]) && Orders(leq, a[1..]) && Antisymmetric(leq, a[1..])
  {
    HeadsAgree(leq, a, b);
    BagOfTail(a);
    BagOfTail(b);
    TailKeepsOrder(leq, a);
    SortedTail(leq, b);
  }

  /** A sorted arrangement of a bag of values is unique when ties are equalities. */
  lemma {:induction false} SortedUnique<T(!new)>(leq: (T, T) -> bool, a: seq<T>, b: seq<T>)
    requires multiset(a) == multiset(b)
    requires Sorted(leq, a) && Sorted(leq, b)
    requires Orders(leq, a) && Antisymmetric(leq, a)
    ensures a == b
    decreases |a|
  {
    SameSize(a, b);
    if a != [] {
      TailsAgree(leq, a, b);
      SortedUnique(leq, a[1..], b[1..]);
      SameHeadAndTail(a, b);
    }
  }

  lemma OrderOfPart<T(!new)>(leq: (T, T) -> bool, part: seq<T>, whole: seq<T>)
    requires Orders(leq, whole) && Antisymmetric(leq, whole) && forall x :: x in part ==> x in whole
    ensures Orders(leq, part) && Antisymmetric(leq, part)
  {
  }

  /** `later` holds in order what is left of `all` beside `kept`. */
  lemma SortedRest<T(!new)>(leq: (T, T) -> bool, kept: seq<T>, all: seq<T>) returns (later: seq<T>)
    requires Orders(leq, all) && Antisymmetric(leq, all) && multiset(kept) <= multiset(all)
    ensures Sorted(leq, later) && multiset(later) == multiset(all) - multiset(kept)
    ensures multiset(kept + later) == multiset(all)
  {
    var rest := BagAsSeq(multiset(all) - multiset(kept));
    forall x | x in rest ensures x in all {
      assert x in multiset(rest) && x in multiset(all);
    }
    OrderOfPart(leq, rest, all);
    SortSorts(leq, rest);
    later := Sort(leq, rest);
  }

  /** A sorted choice that nothing left out should precede is the front of the sorted whole. */
  lemma SortedFront<T(!new)>(leq: (T, T) -> bool, kept: seq<T>, all: seq<T>)
    requires Orders(leq, all) && Antisymmetric(leq, all) && multiset(kept) <= multiset(all) && Sorted(leq, kept)
    requires forall x, y :: x in kept && y in multiset(all) - multiset(kept) ==> leq(x, y)
    ensures |kept| <= |all| && kept == Sort(leq, all)[..|kept|]
  {
    var later := SortedRest(leq, kept, all);
    SortedJoin(leq, kept, later, multiset(all) - multiset(kept));
    SortedWhole(leq, kept + later, all);
    assert kept == (kept + later)[..|kept|];
  }

  lemma SortedWhole<T(!new)>(leq: (T, T) -> bool, sorted: seq<T>, all: seq<T>)
    requires Orders(leq, all) && Antisymmetric(leq, all) && multiset(sorted) == multiset(all) && Sorted(leq, sorted)
    ensures |sorted| == |all| && sorted == Sort(leq, all)
  {
    SameSize(sorted, all);
    SortSorts(leq, all);
    OrderOfSameBag(leq, all, sorted);
    SortedUnique(leq, sorted, Sort(leq, all));
  }

  /** Sorting forgets the input order: equal bags sort to equal sequences. */
  lemma SortIgnoresOrder<T(!new)>(leq: (T, T) -> bool, a: seq<T>, b: seq<T>)
    requires multiset(a) == multiset(b)
    requires Orders(leq, a) && Antisymmetric(leq, a)
    ensures Sort(leq, a) == Sort(leq, b)
  {
    SameMembers(a, b);
    SortSorts(leq, a);
    SortSorts(leq, b);
    SameMembers(a, Sort(leq, a));
    SortedUnique(leq, Sort(leq, a), Sort(leq, b));
  }

  /** A sequence that is already in order is left as it is. */
  lemma {:induction false} SortOfSorted<T(!new)>(leq: (T, T) -> bool, s: seq<T>)
    requires Sorted(leq, s)
    ensures Sort(leq, s) == s
  {
    if s != [] {
      SortOfSorted(leq, s[1..]);
      assert s == [s[0]] + s[1..];
    }
  }

  // ----- taking one element out -----

  function Without<T>(s: seq<T>, k: nat): (r: seq<T>)
    requires k < |s|
    ensures |r| == |s| - 1
  {
    s[..k] + s[k + 1..]
  }

  lemma WithoutHead<T>(s: seq<T>, k: nat)
    requires 0 < k < |s|
    ensures Without(s, k) == [s[0]] + Without(s[1..], k - 1)
  {
  }

  lemma BagWithout<T>(s: seq<T>, k: nat)
    requires k < |s|
    ensures multiset(s) == multiset{s[k]} + multiset(Without(s, k))
  {
    assert s == s[..k] + [s[k]] + s[k + 1..];
  }

  /** A permutation holds the head of the other sequence somewhere, and permutes the rest. */
  lemma FindHead<T>(a: seq<T>, b: seq<T>) returns (k: nat)
    requires a != [] && multiset(a) == multiset(b)
    ensures k < |b| && b[k] == a[0] && multiset(a[1..]) == multiset(Without(b, k))
  {
    assert a == [a[0]] + a[1..];
    assert a[0] in multiset(b);
    k :| 0 <= k < |b| && b[k] == a[0];
    BagWithout(b, k);
    assert multiset(Without(b, k)) == multiset(b) - multiset{a[0]};
    assert multiset(a[1..]) == multiset(a) - multiset{a[0]};
  }

  // ----- filtering -----

  function Filter<T(!new)>(keep: T -> bool, s: seq<T>): (r: seq<T>)
    ensures forall x :: x in r <==> x in s && keep(x)
    ensures |r| <= |s|
  {
    if s == [] then []
    else
      assert s == [s[0]] + s[1..];
      if keep(s[0]) then [s[0]] + Filter(keep, s[1..]) else Filter(keep, s[1..])
  }

  lemma {:induction false} FilterBag<T(!new)>(keep: T -> bool, s: seq<T>)
    ensures forall x :: multiset(Filter(keep, s))[x] == if keep(x) then multiset(s)[x] else 0
  {
    if s != [] {
      FilterBag(keep, s[1..]);
      assert s == [s[0]] + s[1..];
    }
  }

  lemma FilterPermutes<T(!new)>(keep: T -> bool, a: seq<T>, b: seq<T>)
    requires multiset(a) == multiset(b)
    ensures multiset(Filter(keep, a)) == multiset(Filter(keep, b))
  {
    FilterBag(keep, a);
    FilterBag(keep, b);
  }
}
