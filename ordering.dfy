/**
 * Python's ordering of strings (lexicographic by code point, a proper prefix
 * first), strict total orders, and sorting specified as "sorted and a
 * permutation" -- which is all either script relies on from `sort`/`sorted`.
 */
module Ordering {

  /** Python's `a < b` on `str`. */
  predicate StrLess(a: string, b: string) {
    if a == [] then b != []
    else if b == [] then false
    else if a[0] != b[0] then a[0] < b[0]
    else StrLess(a[1..], b[1..])
  }

  lemma {:induction false} StrLessIrreflexive(a: string)
    ensures !StrLess(a, a)
  {
    if a != [] {
      StrLessIrreflexive(a[1..]);
    }
  }

  lemma {:induction false} StrLessTransitive(a: string, b: string, c: string)
    requires StrLess(a, b) && StrLess(b, c)
    ensures StrLess(a, c)
  {
    if a != [] && b != [] && c != [] && a[0] == b[0] && b[0] == c[0] {
      StrLessTransitive(a[1..], b[1..], c[1..]);
    }
  }

  /** Any two different strings are ordered one way or the other. */
  lemma {:induction false} StrLessTotal(a: string, b: string)
    requires a != b
    ensures StrLess(a, b) || StrLess(b, a)
  {
    if a != [] && b != [] && a[0] == b[0] {
      assert a == [a[0]] + a[1..] && b == [b[0]] + b[1..];
      StrLessTotal(a[1..], b[1..]);
    }
  }

  ghost predicate StrictTotalOrder<T(!new)>(lt: (T, T) -> bool) {
    (forall a :: !lt(a, a))
    && (forall a, b, c :: lt(a, b) && lt(b, c) ==> lt(a, c))
    && (forall a, b :: a != b ==> lt(a, b) || lt(b, a))
  }

  lemma StrLessOrder()
    ensures StrictTotalOrder(StrLess)
  {
    forall a ensures !StrLess(a, a) {
      StrLessIrreflexive(a);
    }
    forall a, b, c | StrLess(a, b) && StrLess(b, c) ensures StrLess(a, c) {
      StrLessTransitive(a, b, c);
    }
    forall a, b | a != b ensures StrLess(a, b) || StrLess(b, a) {
      StrLessTotal(a, b);
    }
  }

  /** No later element comes strictly before an earlier one. */
  predicate SortedBy<T(!new)>(s: seq<T>, lt: (T, T) -> bool) {
    forall i, j :: 0 <= i < j < |s| ==> !lt(s[j], s[i])
  }

  /** Every earlier element comes strictly before every later one. */
  predicate StrictlySortedBy<T(!new)>(s: seq<T>, lt: (T, T) -> bool) {
    forall i, j :: 0 <= i < j < |s| ==> lt(s[i], s[j])
  }

  /** No element occurs twice. */
  ghost predicate NoDuplicates<T(!new)>(s: seq<T>) {
    forall x :: multiset(s)[x] <= 1
  }

  lemma NoDuplicatesAt<T(!new)>(s: seq<T>, i: int, j: int)
    requires NoDuplicates(s) && 0 <= i < j < |s|
    ensures s[i] != s[j]
  {
    assert s == s[..j] + [s[j]] + s[j + 1..];
    assert s[i] in s[..j];
    assert multiset(s)[s[j]] >= multiset(s[..j])[s[j]] + 1;
  }

  /** A sorted sequence without duplicates is strictly sorted. */
  lemma SortedDistinct<T(!new)>(s: seq<T>, lt: (T, T) -> bool)
    requires StrictTotalOrder(lt) && SortedBy(s, lt) && NoDuplicates(s)
    ensures StrictlySortedBy(s, lt)
  {
    forall i, j | 0 <= i < j < |s| ensures lt(s[i], s[j]) {
      NoDuplicatesAt(s, i, j);
    }
  }

  /** Puts `x` in front of the first element it does not come after. */
  function Insert<T(!new)>(x: T, s: seq<T>, lt: (T, T) -> bool): (r: seq<T>)
    requires StrictTotalOrder(lt) && SortedBy(s, lt)
    ensures SortedBy(r, lt)
    ensures multiset(r) == multiset(s) + multiset{x}
  {
    if s == [] || !lt(s[0], x) then
      InsertFront(x, s, lt);
      [x] + s
    else
      var rest := Insert(x, s[1..], lt);
      InsertLater(x, s, rest, lt);
      [s[0]] + rest
  }

  lemma InsertFront<T(!new)>(x: T, s: seq<T>, lt: (T, T) -> bool)
    requires StrictTotalOrder(lt) && SortedBy(s, lt)
    requires s == [] || !lt(s[0], x)
    ensures SortedBy([x] + s, lt)
  {
    forall k | 0 <= k < |s| ensures !lt(s[k], x) {
      assert !lt(s[k], s[0]) || k == 0;
    }
  }

  lemma InsertLater<T(!new)>(x: T, s: seq<T>, rest: seq<T>, lt: (T, T) -> bool)
    requires StrictTotalOrder(lt) && SortedBy(s, lt)
    requires s != [] && lt(s[0], x)
    requires SortedBy(rest, lt) && multiset(rest) == multiset(s[1..]) + multiset{x}
    ensures SortedBy([s[0]] + rest, lt)
    ensures multiset([s[0]] + rest) == multiset(s) + multiset{x}
  {
    assert s == [s[0]] + s[1..];
    forall k | 0 <= k < |rest| ensures !lt(rest[k], s[0]) {
      assert rest[k] in multiset(rest);
      assert rest[k] == x || rest[k] in s[1..];
    }
  }

  /** `sorted(s)` / `s.sort()` for a strict total order `lt`: a sorted permutation of `s`. */
  method Sort<T(!new)>(s: seq<T>, lt: (T, T) -> bool) returns (r: seq<T>)
    requires StrictTotalOrder(lt)
    ensures SortedBy(r, lt)
    ensures multiset(r) == multiset(s)
  {
    r := [];
    for i := 0 to |s|
      invariant SortedBy(r, lt)
      invariant multiset(r) == multiset(s[..i])
    {
      assert s[..i + 1] == s[..i] + [s[i]];
      r := Insert(s[i], r, lt);
    }
    assert s[..|s|] == s;
  }

  /** In a strictly sorted sequence, the first element comes before every other element. */
  lemma StrictlySortedFirst<T(!new)>(a: seq<T>, x: T, lt: (T, T) -> bool)
    requires StrictlySortedBy(a, lt) && x in a
    ensures x == a[0] || lt(a[0], x)
  {
    var k :| 0 <= k < |a| && a[k] == x;
  }

  /** Two strictly sorted arrangements of the same elements start with the same element. */
  lemma StrictlySortedHeads<T(!new)>(a: seq<T>, b: seq<T>, lt: (T, T) -> bool)
    requires StrictTotalOrder(lt)
    requires StrictlySortedBy(a, lt) && StrictlySortedBy(b, lt)
    requires multiset(a) == multiset(b) && a != []
    ensures b != [] && a[0] == b[0]
  {
    assert a[0] in multiset(b);
    assert b != [] && b[0] in multiset(a);
    StrictlySortedFirst(a, b[0], lt);
    StrictlySortedFirst(b, a[0], lt);
  }

  /** Taking the same first element off two permutations of each other leaves permutations of each other. */
  lemma TailsPermuted<T>(a: seq<T>, b: seq<T>)
    requires a != [] && b != [] && a[0] == b[0] && multiset(a) == multiset(b)
    ensures multiset(a[1..]) == multiset(b[1..])
  {
    assert a == [a[0]] + a[1..];
    assert b == [b[0]] + b[1..];
    assert multiset(a[1..]) == multiset(a) - multiset{a[0]};
    assert multiset(b[1..]) == multiset(b) - multiset{b[0]};
  }

  /**
   * Two strictly sorted sequences with the same elements are equal: the
   * strictly sorted arrangement of a set of values is unique.
   */
  lemma {:induction false} StrictlySortedUnique<T(!new)>(a: seq<T>, b: seq<T>, lt: (T, T) -> bool)
    requires StrictTotalOrder(lt)
    requires StrictlySortedBy(a, lt) && StrictlySortedBy(b, lt)
    requires multiset(a) == multiset(b)
    ensures a == b
    decreases |a|
  {
    assert |a| == |multiset(a)| == |b|;
    if a != [] {
      StrictlySortedHeads(a, b, lt);
      TailsPermuted(a, b);
      StrictlySortedUnique(a[1..], b[1..], lt);
      assert a == [a[0]] + a[1..] && b == [b[0]] + b[1..];
    }
  }

  /** A sequence without duplicates has as many elements as its set of elements. */
  lemma {:induction false} NoDuplicatesCard<T(!new)>(s: seq<T>)
    requires NoDuplicates(s)
    ensures |set x | x in s| == |s|
  {
    if s != [] {
      assert s == [s[0]] + s[1..];
      assert multiset(s) == multiset{s[0]} + multiset(s[1..]);
      assert NoDuplicates(s[1..]) by {
        forall x ensures multiset(s[1..])[x] <= 1 {
          assert multiset(s)[x] <= 1;
        }
      }
      NoDuplicatesCard(s[1..]);
      assert s[0] !in s[1..] by {
        assert multiset(s)[s[0]] <= 1;
      }
      assert (set x | x in s) == {s[0]} + (set x | x in s[1..]);
    }
  }

  /** A sequence without duplicates is a permutation of its set of elements. */
  lemma NoDuplicatesPermutation<T(!new)>(s: seq<T>, elements: set<T>)
    requires NoDuplicates(s)
    requires forall x :: x in s <==> x in elements
    ensures multiset(s) == multiset(elements)
    ensures |s| == |elements|
  {
    assert forall x :: multiset(s)[x] == multiset(elements)[x];
    assert |s| == |multiset(s)|;
  }

  /** Pairwise different elements: no element occurs twice. */
  lemma {:induction false} DistinctNoDuplicates<T(!new)>(s: seq<T>)
    requires forall i, j :: 0 <= i < j < |s| ==> s[i] != s[j]
    ensures NoDuplicates(s)
  {
    if s != [] {
      var rest := s[1..];
      assert s == [s[0]] + rest;
      assert forall i, j :: 0 <= i < j < |rest| ==> rest[i] == s[i + 1] && rest[j] == s[j + 1];
      DistinctNoDuplicates(rest);
      assert s[0] !in rest;
      assert multiset(s) == multiset{s[0]} + multiset(rest);
    }
  }

  /** A strictly sorted sequence holds no element twice. */
  lemma StrictlySortedNoDuplicates<T(!new)>(s: seq<T>, lt: (T, T) -> bool)
    requires StrictTotalOrder(lt) && StrictlySortedBy(s, lt)
    ensures NoDuplicates(s)
  {
    DistinctNoDuplicates(s);
  }

  /** Two strictly sorted sequences, every element of the first before every element of the second, concatenate to a strictly sorted one. */
  lemma StrictlySortedAppend<T(!new)>(a: seq<T>, b: seq<T>, lt: (T, T) -> bool)
    requires StrictlySortedBy(a, lt) && StrictlySortedBy(b, lt)
    requires forall x, y :: x in a && y in b ==> lt(x, y)
    ensures StrictlySortedBy(a + b, lt)
  {
    forall i, j | 0 <= i < j < |a + b| ensures lt((a + b)[i], (a + b)[j]) {
      if j < |a| {
        assert (a + b)[i] == a[i] && (a + b)[j] == a[j];
      } else if i >= |a| {
        assert (a + b)[i] == b[i - |a|] && (a + b)[j] == b[j - |a|];
      } else {
        assert (a + b)[i] == a[i] && (a + b)[j] == b[j - |a|];
      }
    }
  }

  /** The descending order on counts: `a` before `b` when `a > b`. */
  predicate Greater(a: nat, b: nat) {
    a > b
  }

  lemma GreaterOrder()
    ensures StrictTotalOrder(Greater)
  {
  }

  /** Iterating over a dictionary's keys: each once, in an order that is not specified. */
  method Enumerate<T(!new)>(keys: set<T>) returns (xs: seq<T>)
    ensures NoDuplicates(xs)
    ensures forall x :: x in xs <==> x in keys
  {
    xs := [];
    var remaining := keys;
    while remaining != {}
      invariant remaining <= keys
      invariant NoDuplicates(xs)
      invariant forall x :: x in xs <==> x in keys && x !in remaining
      decreases remaining
    {
      var x :| x in remaining;
      assert x !in xs;
      xs := xs + [x];
      remaining := remaining - {x};
    }
  }
}
