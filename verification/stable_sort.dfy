/** A stable sort over sequences, standing for Go's `sort.Stable`: the result
    is ordered by the comparator, holds exactly the input's elements, and keeps
    the input order of elements the comparator ranks equal. It is written as an
    insertion sort. */
module StableSort {
  import opened Ordering

  /** No element ranks before an element that precedes it. */
  ghost predicate Sorted<T>(s: seq<T>, less: (T, T) -> bool)
  {
    forall i, j :: 0 <= i < j < |s| ==> !less(s[j], s[i])
  }

  /** The elements of `s` that rank equal to `x`, in the order `s` has them. */
  function Class<T>(s: seq<T>, x: T, less: (T, T) -> bool): seq<T>
  {
    if |s| == 0 then []
    else (if Equivalent(less, s[0], x) then [s[0]] else []) + Class(s[1..], x, less)
  }

  /** `output` keeps the relative order of every group of equal-ranked
      elements of `input`. */
  ghost predicate Stable<T(!new)>(input: seq<T>, output: seq<T>, less: (T, T) -> bool)
  {
    forall x :: Class(output, x, less) == Class(input, x, less)
  }

  ghost predicate IsStableSortOf<T(!new)>(input: seq<T>, output: seq<T>, less: (T, T) -> bool)
  {
    && Sorted(output, less)
    && multiset(output) == multiset(input)
    && Stable(input, output, less)
  }

  /** Places `x` after every element of `sorted` that does not rank after it. */
  function Insert<T>(sorted: seq<T>, x: T, less: (T, T) -> bool): seq<T>
  {
    if |sorted| == 0 then [x]
    else if less(x, sorted[0]) then [x] + sorted
    else [sorted[0]] + Insert(sorted[1..], x, less)
  }

  /** Insertion sort, taking the elements in input order. */
  function InsertionSort<T>(s: seq<T>, less: (T, T) -> bool): seq<T>
  {
    if |s| == 0 then []
    else Insert(InsertionSort(s[..|s| - 1], less), s[|s| - 1], less)
  }

  /** Sorting one more element inserts it into the sorted rest. */
  lemma InsertionSortSnoc<T>(s: seq<T>, x: T, less: (T, T) -> bool)
    ensures InsertionSort(s + [x], less) == Insert(InsertionSort(s, less), x, less)
  {
    assert (s + [x])[..|s|] == s;
  }

  lemma {:induction false} ClassConcat<T>(a: seq<T>, b: seq<T>, x: T, less: (T, T) -> bool)
    ensures Class(a + b, x, less) == Class(a, x, less) + Class(b, x, less)
    decreases |a|
  {
    if |a| > 0 {
      assert (a + b)[1..] == a[1..] + b;
      ClassConcat(a[1..], b, x, less);
    } else {
      assert a + b == b;
    }
  }

  lemma {:induction false} InsertMultiset<T>(sorted: seq<T>, x: T, less: (T, T) -> bool)
    ensures multiset(Insert(sorted, x, less)) == multiset(sorted) + multiset{x}
    decreases |sorted|
  {
    if |sorted| > 0 && !less(x, sorted[0]) {
      InsertMultiset(sorted[1..], x, less);
      assert sorted == [sorted[0]] + sorted[1..];
    }
  }

  lemma SortedCons<T>(a: T, s: seq<T>, less: (T, T) -> bool)
    requires Sorted(s, less)
    requires forall j :: 0 <= j < |s| ==> !less(s[j], a)
    ensures Sorted([a] + s, less)
  {
    var t := [a] + s;
    forall i, j | 0 <= i < j < |t|
      ensures !less(t[j], t[i])
    {
      assert t[j] == s[j - 1];
      if i > 0 {
        assert t[i] == s[i - 1];
      }
    }
  }

  lemma {:induction false} InsertSorted<T(!new)>(sorted: seq<T>, x: T, less: (T, T) -> bool)
    requires StrictWeakOrder(less)
    requires Sorted(sorted, less)
    ensures Sorted(Insert(sorted, x, less), less)
    decreases |sorted|
  {
    if |sorted| == 0 {
    } else if less(x, sorted[0]) {
      forall j | 0 <= j < |sorted|
        ensures !less(sorted[j], x)
      {
        if j > 0 {
          assert !less(sorted[j], sorted[0]);
        }
      }
      SortedCons(x, sorted, less);
    } else {
      var rest := Insert(sorted[1..], x, less);
      InsertSorted(sorted[1..], x, less);
      InsertMultiset(sorted[1..], x, less);
      forall j | 0 <= j < |rest|
        ensures !less(rest[j], sorted[0])
      {
        assert rest[j] in multiset(sorted[1..]) + multiset{x};
        if rest[j] != x {
          assert rest[j] in sorted[1..];
          var k :| 0 <= k < |sorted[1..]| && sorted[1..][k] == rest[j];
          assert sorted[k + 1] == rest[j];
        }
      }
      SortedCons(sorted[0], rest, less);
    }
  }

  /** Inserting into a sorted sequence is stable: `x` lands after every
      element that ranks equal to it. */
  lemma {:induction false} InsertClass<T(!new)>(sorted: seq<T>, y: T, x: T, less: (T, T) -> bool)
    requires StrictWeakOrder(less)
    requires Sorted(sorted, less)
    ensures Class(Insert(sorted, y, less), x, less) == Class(sorted + [y], x, less)
    decreases |sorted|
  {
    ClassConcat(sorted, [y], x, less);
    if |sorted| == 0 {
    } else if less(y, sorted[0]) {
      ClassConcat([y], sorted, x, less);
      if Equivalent(less, y, x) {
        NoneEquivalentAfter(sorted, y, x, less);
      }
    } else {
      var tail := sorted[1..];
      assert Sorted(tail, less);
      InsertClass(tail, y, x, less);
      ClassConcat([sorted[0]], Insert(tail, y, less), x, less);
      ClassConcat(tail, [y], x, less);
      ClassConcat([sorted[0]], tail, x, less);
      assert [sorted[0]] + tail == sorted;
    }
  }

  /** When `y` ranks before the head of a sorted sequence and `y` is equal to
      `x`, no element of that sequence is equal to `x`. */
  lemma NoneEquivalentAfter<T(!new)>(sorted: seq<T>, y: T, x: T, less: (T, T) -> bool)
    requires StrictWeakOrder(less)
    requires Sorted(sorted, less)
    requires |sorted| > 0 && less(y, sorted[0])
    requires Equivalent(less, y, x)
    ensures Class(sorted, x, less) == []
  {
    var i := 0;
    while i < |sorted|
      invariant 0 <= i <= |sorted|
      invariant Class(sorted, x, less) == Class(sorted[i..], x, less)
    {
      if i > 0 {
        assert !less(sorted[i], sorted[0]);
      }
      LessBeforeNotLess(less, y, sorted[0], sorted[i]);
      assert !(Equivalent(less, sorted[i], x) && Equivalent(less, x, y));
      assert sorted[i..][1..] == sorted[i + 1..];
      i := i + 1;
    }
  }

  lemma {:induction false} InsertionSortProperties<T(!new)>(s: seq<T>, less: (T, T) -> bool)
    requires StrictWeakOrder(less)
    ensures IsStableSortOf(s, InsertionSort(s, less), less)
    decreases |s|
  {
    if |s| == 0 {
    } else {
      var init := s[..|s| - 1];
      var last := s[|s| - 1];
      assert s == init + [last];
      InsertionSortProperties(init, less);
      var sortedInit := InsertionSort(init, less);
      InsertSorted(sortedInit, last, less);
      InsertMultiset(sortedInit, last, less);
      forall x
        ensures Class(InsertionSort(s, less), x, less) == Class(s, x, less)
      {
        InsertClass(sortedInit, last, x, less);
        ClassConcat(sortedInit, [last], x, less);
        ClassConcat(init, [last], x, less);
      }
    }
  }

  /** Sorting a sequence that is already sorted leaves it unchanged. */
  lemma {:induction false} InsertionSortIdempotent<T(!new)>(s: seq<T>, less: (T, T) -> bool)
    requires Sorted(s, less)
    ensures InsertionSort(s, less) == s
    decreases |s|
  {
    if |s| > 0 {
      var init := s[..|s| - 1];
      var last := s[|s| - 1];
      assert Sorted(init, less);
      InsertionSortIdempotent(init, less);
      InsertAtEnd(init, last, less);
      assert init + [last] == s;
    }
  }

  lemma {:induction false} InsertAtEnd<T>(s: seq<T>, x: T, less: (T, T) -> bool)
    requires forall j :: 0 <= j < |s| ==> !less(x, s[j])
    ensures Insert(s, x, less) == s + [x]
    decreases |s|
  {
    if |s| > 0 {
      InsertAtEnd(s[1..], x, less);
      assert s == [s[0]] + s[1..];
    }
  }

  /** Any two sorted, stable rearrangements of the same input are equal, so
      the stable sort's result is fully determined by the comparator. */
  lemma StableSortUnique<T(!new)>(input: seq<T>, a: seq<T>, b: seq<T>, less: (T, T) -> bool)
    requires StrictWeakOrder(less)
    requires IsStableSortOf(input, a, less)
    requires IsStableSortOf(input, b, less)
    ensures a == b
  {
    SameClassesUnique(a, b, less);
  }

  lemma {:induction false} ClassHasOwn<T(!new)>(s: seq<T>, i: int, less: (T, T) -> bool)
    requires Irreflexive(less)
    requires 0 <= i < |s|
    ensures s[i] in Class(s, s[i], less)
  {
    var x, t := s[i], s[i..];
    assert t[0] == x;
    assert Equivalent(less, t[0], x);
    assert Class(t, x, less) == [x] + Class(t[1..], x, less);
    ClassConcat(s[..i], t, x, less);
    assert s[..i] + t == s;
  }

  lemma {:induction false} ClassMembers<T>(s: seq<T>, x: T, y: T, less: (T, T) -> bool)
    requires y in Class(s, x, less)
    ensures y in s
    ensures Equivalent(less, y, x)
    decreases |s|
  {
    if !(y == s[0] && Equivalent(less, s[0], x)) {
      ClassMembers(s[1..], x, y, less);
    }
  }

  /** Two sorted sequences with the same equal-rank groups are equal. */
  lemma {:induction false} SameClassesUnique<T(!new)>(a: seq<T>, b: seq<T>, less: (T, T) -> bool)
    requires StrictWeakOrder(less)
    requires Sorted(a, less) && Sorted(b, less)
    requires forall z :: Class(a, z, less) == Class(b, z, less)
    ensures a == b
    decreases |a|
  {
    if |b| > 0 {
      ClassHasOwn(b, 0, less);
      ClassMembers(a, b[0], b[0], less);
    }
    if |a| > 0 {
      ClassHasOwn(a, 0, less);
      ClassMembers(b, a[0], a[0], less);
    }
    if |a| > 0 && |b| > 0 {
      var x, y := a[0], b[0];
      var k :| 0 <= k < |a| && a[k] == y;
      assert !less(y, x) by {
        if k > 0 {
          assert !less(a[k], a[0]);
        }
      }
      var m :| 0 <= m < |b| && b[m] == x;
      assert !less(x, y) by {
        if m > 0 {
          assert !less(b[m], b[0]);
        }
      }
      assert Class(a, x, less) == [x] + Class(a[1..], x, less);
      assert Class(b, x, less) == [y] + Class(b[1..], x, less);
      assert x == Class(b, x, less)[0];
      assert x == y;
      forall z
        ensures Class(a[1..], z, less) == Class(b[1..], z, less)
      {
        var head := if Equivalent(less, x, z) then [x] else [];
        assert Class(a, z, less) == head + Class(a[1..], z, less);
        assert Class(b, z, less) == head + Class(b[1..], z, less);
        assert Class(a, z, less) == Class(b, z, less);
        assert (head + Class(a[1..], z, less))[|head|..] == Class(a[1..], z, less);
        assert (head + Class(b[1..], z, less))[|head|..] == Class(b[1..], z, less);
      }
      SameClassesUnique(a[1..], b[1..], less);
      assert a == [x] + a[1..];
      assert b == [y] + b[1..];
    }
  }

  /** Insertion walks past every leading element `x` does not rank before. */
  lemma {:induction false} InsertSkips<T>(sorted: seq<T>, x: T, k: nat, less: (T, T) -> bool)
    requires k <= |sorted|
    requires forall j :: 0 <= j < k ==> !less(x, sorted[j])
    ensures Insert(sorted, x, less) == sorted[..k] + Insert(sorted[k..], x, less)
    decreases k
  {
    if k == 0 {
      assert sorted[..0] == [] && sorted[0..] == sorted;
    } else {
      var head, tail := sorted[0], sorted[1..];
      assert !less(x, head);
      assert Insert(sorted, x, less) == [head] + Insert(tail, x, less);
      forall j | 0 <= j < k - 1
        ensures !less(x, tail[j])
      {
        assert tail[j] == sorted[j + 1];
      }
      InsertSkips(tail, x, k - 1, less);
      var rest := Insert(tail[k - 1..], x, less);
      assert tail[k - 1..] == sorted[k..];
      assert [head] + (tail[..k - 1] + rest) == ([head] + tail[..k - 1]) + rest;
      assert [head] + tail[..k - 1] == sorted[..k];
    }
  }

  /** Where `Insert` places `x`: before the first element it ranks before. */
  method InsertPosition<T>(sorted: seq<T>, x: T, less: (T, T) -> bool) returns (k: nat)
    ensures k <= |sorted|
    ensures Insert(sorted, x, less) == sorted[..k] + [x] + sorted[k..]
  {
    k := 0;
    while k < |sorted| && !less(x, sorted[k])
      invariant k <= |sorted|
      invariant forall j :: 0 <= j < k ==> !less(x, sorted[j])
    {
      k := k + 1;
    }
    InsertSkips(sorted, x, k, less);
    if k < |sorted| {
      assert sorted[k..][0] == sorted[k];
    } else {
      assert sorted[k..] == [];
    }
  }

  /** The executable sort: one insertion per input element, left to right. */
  method Sort<T(!new)>(s: seq<T>, less: (T, T) -> bool) returns (r: seq<T>)
    requires StrictWeakOrder(less)
    ensures Sorted(r, less)
    ensures multiset(r) == multiset(s)
    ensures Stable(s, r, less)
  {
    r := [];
    var i := 0;
    while i < |s|
      invariant 0 <= i <= |s|
      invariant r == InsertionSort(s[..i], less)
    {
      var k := InsertPosition(r, s[i], less);
      assert s[..i + 1][..i] == s[..i];
      r := r[..k] + [s[i]] + r[k..];
      i := i + 1;
    }
    assert s[..|s|] == s;
    InsertionSortProperties(s, less);
  }
}
