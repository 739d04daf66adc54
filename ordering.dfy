/**
 * Python's ordering of strings and of `pathlib` paths, and `sorted`, which
 * both core files rely on for determinism.
 */
module Ordering {

  /** `less` is a strict total order on all values of T. */
  ghost predicate StrictTotalOrder<T(!new)>(less: (T, T) -> bool) {
    && (forall x :: !less(x, x))
    && (forall x, y, z :: less(x, y) && less(y, z) ==> less(x, z))
    && (forall x, y :: x != y ==> less(x, y) || less(y, x))
  }

  /**
   * Python's `<` on strings and on tuples of parts: the first position where
   * the two differ decides; if one is a prefix of the other, the shorter one
   * is smaller.
   */
  predicate LexLess<T(==)>(a: seq<T>, b: seq<T>, less: (T, T) -> bool) {
    if |a| == 0 then |b| > 0
    else if |b| == 0 then false
    else if a[0] == b[0] then LexLess(a[1..], b[1..], less)
    else less(a[0], b[0])
  }

  lemma {:induction false} LexIrreflexive<T(!new)>(a: seq<T>, less: (T, T) -> bool)
    ensures !LexLess(a, a, less)
  {
    if |a| > 0 {
      LexIrreflexive(a[1..], less);
    }
  }

  lemma {:induction false} LexTransitive<T(!new)>(a: seq<T>, b: seq<T>, c: seq<T>, less: (T, T) -> bool)
    requires StrictTotalOrder(less)
    requires LexLess(a, b, less) && LexLess(b, c, less)
    ensures LexLess(a, c, less)
  {
    if |a| > 0 && |b| > 0 && |c| > 0 && a[0] == b[0] && b[0] == c[0] {
      LexTransitive(a[1..], b[1..], c[1..], less);
    }
  }

  lemma {:induction false} LexConnected<T(!new)>(a: seq<T>, b: seq<T>, less: (T, T) -> bool)
    requires StrictTotalOrder(less)
    requires a != b
    ensures LexLess(a, b, less) || LexLess(b, a, less)
  {
    if |a| > 0 && |b| > 0 && a[0] == b[0] {
      assert a == [a[0]] + a[1..] && b == [b[0]] + b[1..];
      LexConnected(a[1..], b[1..], less);
    }
  }

  predicate CharLess(x: char, y: char) {
    x < y
  }

  /** Python's `<` on `str`: by code point. */
  predicate StringLess(a: string, b: string) {
    LexLess(a, b, CharLess)
  }

  lemma StringOrder()
    ensures StrictTotalOrder(StringLess)
  {
    forall a: string {
      LexIrreflexive(a, CharLess);
    }
    forall a: string, b: string, c: string | StringLess(a, b) && StringLess(b, c)
      ensures StringLess(a, c)
    {
      LexTransitive(a, b, c, CharLess);
    }
    forall a: string, b: string | a != b
      ensures StringLess(a, b) || StringLess(b, a)
    {
      LexConnected(a, b, CharLess);
    }
  }

  /** Python's `<` on `pathlib` paths: their parts compared as tuples of strings. */
  predicate PartsLess(a: seq<string>, b: seq<string>) {
    LexLess(a, b, StringLess)
  }

  lemma PartsOrder()
    ensures StrictTotalOrder(PartsLess)
  {
    StringOrder();
    forall a: seq<string> {
      LexIrreflexive(a, StringLess);
    }
    forall a: seq<string>, b: seq<string>, c: seq<string> | PartsLess(a, b) && PartsLess(b, c)
      ensures PartsLess(a, c)
    {
      LexTransitive(a, b, c, StringLess);
    }
    forall a: seq<string>, b: seq<string> | a != b
      ensures PartsLess(a, b) || PartsLess(b, a)
    {
      LexConnected(a, b, StringLess);
    }
  }

  // ---------------------------------------------------------------------
  // `sorted`

  /** No later element is smaller than an earlier one. */
  ghost predicate SortedBy<T>(s: seq<T>, less: (T, T) -> bool) {
    forall i, j :: 0 <= i < j < |s| ==> !less(s[j], s[i])
  }

  /** Insert `x` into a sorted sequence before the first element not smaller than it. */
  function Insert<T>(x: T, s: seq<T>, less: (T, T) -> bool): (r: seq<T>)
    ensures multiset(r) == multiset(s) + multiset{x}
  {
    if s == [] then [x]
    else if less(s[0], x) then
      assert s == [s[0]] + s[1..];
      [s[0]] + Insert(x, s[1..], less)
    else
      [x] + s
  }

  /** Inserting into a sorted sequence keeps it sorted. */
  lemma {:induction false} InsertSorted<T(!new)>(x: T, s: seq<T>, less: (T, T) -> bool)
    requires StrictTotalOrder(less) && SortedBy(s, less)
    ensures SortedBy(Insert(x, s, less), less)
  {
    if s != [] {
      if less(s[0], x) {
        var rest := Insert(x, s[1..], less);
        InsertSorted(x, s[1..], less);
        forall e | e in rest
          ensures !less(e, s[0])
        {
          assert e in multiset(rest);
          if e != x {
            assert e in s[1..];
          }
        }
        assert Insert(x, s, less) == [s[0]] + rest;
      } else {
        assert forall j :: 0 <= j < |s| ==> !less(s[j], s[0]);
      }
    }
  }

  lemma InsertKeepsOrder<T(!new)>(x: T, s: seq<T>, less: (T, T) -> bool)
    ensures StrictTotalOrder(less) && SortedBy(s, less) ==> SortedBy(Insert(x, s, less), less)
  {
    if StrictTotalOrder(less) && SortedBy(s, less) {
      InsertSorted(x, s, less);
    }
  }

  /** `sorted(s)`: a sorted permutation of `s` (insertion sort). */
  function Sort<T(!new)>(s: seq<T>, less: (T, T) -> bool): (r: seq<T>)
    ensures multiset(r) == multiset(s)
    ensures StrictTotalOrder(less) ==> SortedBy(r, less)
  {
    if s == [] then []
    else
      assert s == [s[0]] + s[1..];
      var rest := Sort(s[1..], less);
      InsertKeepsOrder(s[0], rest, less);
      Insert(s[0], rest, less)
  }

  /** Two sorted permutations of the same values start with the same element. */
  lemma SortedSameHead<T(!new)>(a: seq<T>, b: seq<T>, less: (T, T) -> bool)
    requires StrictTotalOrder(less)
    requires SortedBy(a, less) && SortedBy(b, less)
    requires multiset(a) == multiset(b) && a != []
    ensures b != [] && a[0] == b[0]
  {
    assert a[0] in multiset(b);
    var k :| 0 <= k < |b| && b[k] == a[0];
    assert b[0] in multiset(a);
    var m :| 0 <= m < |a| && a[m] == b[0];
    assert !less(a[0], b[0]) by {
      if k > 0 {
        assert !less(b[k], b[0]);
      }
    }
    assert !less(b[0], a[0]) by {
      if m > 0 {
        assert !less(a[m], a[0]);
      }
    }
  }

  /** Dropping the head of a non-empty sequence keeps it sorted and removes one copy of the head. */
  lemma SortedTail<T>(a: seq<T>, less: (T, T) -> bool)
    requires SortedBy(a, less) && a != []
    ensures SortedBy(a[1..], less)
    ensures multiset(a[1..]) == multiset(a) - multiset{a[0]}
  {
    assert a == [a[0]] + a[1..];
  }

  /**
   * A strict total order admits only one sorted permutation of a sequence, so
   * `Sort` is what Python's `sorted` returns, whatever algorithm it uses.
   */
  lemma {:induction false} SortedUnique<T(!new)>(a: seq<T>, b: seq<T>, less: (T, T) -> bool)
    requires StrictTotalOrder(less)
    requires SortedBy(a, less) && SortedBy(b, less)
    requires multiset(a) == multiset(b)
    ensures a == b
  {
    if a == [] {
      assert |b| == |multiset(b)| == 0;
    } else {
      SortedSameHead(a, b, less);
      SortedTail(a, less);
      SortedTail(b, less);
      SortedUnique(a[1..], b[1..], less);
      assert |a| == |b|;
      assert forall i :: 0 <= i < |a| ==> a[i] == b[i] by {
        forall i | 0 <= i < |a| ensures a[i] == b[i] {
          if i > 0 {
            assert a[i] == a[1..][i - 1] && b[i] == b[1..][i - 1];
          }
        }
      }
    }
  }

  /** No value occurs twice. */
  ghost predicate Distinct<T>(s: seq<T>) {
    forall i, j :: 0 <= i < j < |s| ==> s[i] != s[j]
  }

  lemma {:induction false} DistinctOnce<T>(s: seq<T>, x: T)
    requires Distinct(s)
    ensures multiset(s)[x] <= 1
  {
    if s != [] {
      assert s == [s[0]] + s[1..];
      DistinctOnce(s[1..], x);
      if s[0] == x {
        assert x !in s[1..];
      }
    }
  }

  /** A permutation of a sequence without repeats has no repeats. */
  lemma PermutationDistinct<T>(s: seq<T>, r: seq<T>)
    requires Distinct(s) && multiset(r) == multiset(s)
    ensures Distinct(r)
  {
    forall i, j | 0 <= i < j < |r|
      ensures r[i] != r[j]
    {
      DistinctOnce(s, r[i]);
      assert r == r[..j] + r[j..];
      assert r[i] in multiset(r[..j]);
    }
  }

  /** A sorted sequence without repeats is strictly increasing. */
  lemma SortedDistinctIncreasing<T(!new)>(s: seq<T>, less: (T, T) -> bool)
    requires StrictTotalOrder(less) && SortedBy(s, less) && Distinct(s)
    ensures forall i, j :: 0 <= i < |s| && 0 <= j < |s| ==> (less(s[i], s[j]) <==> i < j)
  {
  }
}
