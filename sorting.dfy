/**
 * `Collections.sort(list, comparator)`: a stable sort by a
 * `java.util.Comparator`, modelled as insertion sort on sequences.
 */
module Sorting {
  import opened ListAlgebra

  function Sign(n: int): int
  {
    if n < 0 then -1 else if n > 0 then 1 else 0
  }

  /** sgn(compare(x, y)) == -sgn(compare(y, x)). */
  ghost predicate SignFlips<T>(cmp: (T, T) -> int, x: T, y: T)
  {
    Sign(cmp(x, y)) == -Sign(cmp(y, x))
  }

  /** compare(x, y) > 0 and compare(y, z) > 0 imply compare(x, z) > 0. */
  ghost predicate GreaterTransitive<T>(cmp: (T, T) -> int, x: T, y: T, z: T)
  {
    cmp(x, y) > 0 && cmp(y, z) > 0 ==> cmp(x, z) > 0
  }

  /** compare(x, y) == 0 implies that x and y compare alike against z. */
  ghost predicate EqualCompareAlike<T>(cmp: (T, T) -> int, x: T, y: T, z: T)
  {
    cmp(x, y) == 0 ==> Sign(cmp(x, z)) == Sign(cmp(y, z))
  }

  /** What `java.util.Comparator.compare` must satisfy for every x, y and z. */
  ghost predicate ComparatorContract<T(!new)>(cmp: (T, T) -> int)
  {
    && (forall x, y :: SignFlips(cmp, x, y))
    && (forall x, y, z :: GreaterTransitive(cmp, x, y, z))
    && (forall x, y, z :: EqualCompareAlike(cmp, x, y, z))
  }

  /** Every element compares at most equal to every later element. */
  ghost predicate Sorted<T>(s: seq<T>, cmp: (T, T) -> int)
  {
    forall i, j {:trigger cmp(s[i], s[j])} :: 0 <= i < j < |s| ==> cmp(s[i], s[j]) <= 0
  }

  /** The elements of `s` that compare equal to `key`: one class of a stable sort. */
  function EquivalentTo<T>(cmp: (T, T) -> int, key: T): T -> bool
  {
    y => cmp(y, key) == 0
  }

  /** "At most" is transitive under the comparator contract. */
  lemma AtMostTransitive<T(!new)>(cmp: (T, T) -> int, a: T, b: T, c: T)
    requires ComparatorContract(cmp)
    requires cmp(a, b) <= 0 && cmp(b, c) <= 0
    ensures cmp(a, c) <= 0
  {
    assert SignFlips(cmp, a, b) && SignFlips(cmp, b, c) && SignFlips(cmp, a, c);
    if cmp(a, b) == 0 {
      assert EqualCompareAlike(cmp, a, b, c);
    } else if cmp(b, c) == 0 {
      assert EqualCompareAlike(cmp, b, c, a);
    } else {
      assert GreaterTransitive(cmp, c, b, a);
    }
  }

  /** Places `x` before the first element of `s` that does not compare below it. */
  function InsertSorted<T>(x: T, s: seq<T>, cmp: (T, T) -> int): (r: seq<T>)
  {
    if s == [] || cmp(x, s[0]) <= 0 then [x] + s
    else [s[0]] + InsertSorted(x, s[1..], cmp)
  }

  /** The list `Collections.sort` leaves: insertion of each element, back to front. */
  function SortedBy<T>(s: seq<T>, cmp: (T, T) -> int): (r: seq<T>)
  {
    if s == [] then [] else InsertSorted(s[0], SortedBy(s[1..], cmp), cmp)
  }

  lemma {:induction false} InsertSortedMultiset<T>(x: T, s: seq<T>, cmp: (T, T) -> int)
    ensures multiset(InsertSorted(x, s, cmp)) == multiset{x} + multiset(s)
  {
    if s != [] && cmp(x, s[0]) > 0 {
      assert s == [s[0]] + s[1..];
      InsertSortedMultiset(x, s[1..], cmp);
    }
  }

  lemma {:induction false} InsertSortedKeepsOrder<T(!new)>(x: T, s: seq<T>, cmp: (T, T) -> int)
    requires ComparatorContract(cmp)
    requires Sorted(s, cmp)
    ensures Sorted(InsertSorted(x, s, cmp), cmp)
  {
    var r := InsertSorted(x, s, cmp);
    if s == [] {
    } else if cmp(x, s[0]) <= 0 {
      forall j | 1 <= j < |r| ensures cmp(x, r[j]) <= 0 {
        if j > 1 { AtMostTransitive(cmp, x, s[0], s[j - 1]); }
      }
    } else {
      var tail := s[1..];
      var r' := InsertSorted(x, tail, cmp);
      InsertSortedKeepsOrder(x, tail, cmp);
      InsertSortedMultiset(x, tail, cmp);
      assert SignFlips(cmp, s[0], x);
      forall j | 0 <= j < |r'| ensures cmp(s[0], r'[j]) <= 0 {
        assert r'[j] in multiset(r');
        if r'[j] != x {
          assert r'[j] in multiset(tail);
          var k :| 0 <= k < |tail| && tail[k] == r'[j];
          assert s[k + 1] == r'[j];
        }
      }
      assert r == [s[0]] + r';
    }
  }

  lemma {:induction false} InsertSortedStable<T(!new)>(x: T, s: seq<T>, cmp: (T, T) -> int, key: T)
    requires ComparatorContract(cmp)
    ensures var eq := EquivalentTo(cmp, key);
            Filtered(InsertSorted(x, s, cmp), eq) == Filtered([x], eq) + Filtered(s, eq)
  {
    var eq := EquivalentTo(cmp, key);
    if s == [] || cmp(x, s[0]) <= 0 {
      FilteredConcat([x], s, eq);
    } else {
      var tail := s[1..];
      assert s == [s[0]] + tail;
      InsertSortedStable(x, tail, cmp, key);
      FilteredConcat([s[0]], InsertSorted(x, tail, cmp), eq);
      FilteredConcat([s[0]], tail, eq);
      FilteredConcat([x], [s[0]], eq);
      if eq(x) {
        // s[0] compares above x, and x is equivalent to key, so s[0] is not.
        assert EqualCompareAlike(cmp, x, key, s[0]) && SignFlips(cmp, s[0], key);
        assert Filtered([s[0]], eq) == [];
      } else {
        assert Filtered([x], eq) == [];
      }
    }
  }

  /** The sorted list is ordered by the comparator. */
  lemma {:induction false} SortedByIsSorted<T(!new)>(s: seq<T>, cmp: (T, T) -> int)
    requires ComparatorContract(cmp)
    ensures Sorted(SortedBy(s, cmp), cmp)
  {
    if s != [] {
      SortedByIsSorted(s[1..], cmp);
      InsertSortedKeepsOrder(s[0], SortedBy(s[1..], cmp), cmp);
    }
  }

  /** The sorted list is a permutation of the original. */
  lemma {:induction false} SortedByIsPermutation<T>(s: seq<T>, cmp: (T, T) -> int)
    ensures multiset(SortedBy(s, cmp)) == multiset(s)
  {
    if s != [] {
      assert s == [s[0]] + s[1..];
      SortedByIsPermutation(s[1..], cmp);
      InsertSortedMultiset(s[0], SortedBy(s[1..], cmp), cmp);
    }
  }

  /** The sort is stable: elements that compare equal keep their relative order. */
  lemma {:induction false} SortedByIsStable<T(!new)>(s: seq<T>, cmp: (T, T) -> int, key: T)
    requires ComparatorContract(cmp)
    ensures Filtered(SortedBy(s, cmp), EquivalentTo(cmp, key)) == Filtered(s, EquivalentTo(cmp, key))
  {
    var eq := EquivalentTo(cmp, key);
    if s != [] {
      assert s == [s[0]] + s[1..];
      SortedByIsStable(s[1..], cmp, key);
      InsertSortedStable(s[0], SortedBy(s[1..], cmp), cmp, key);
      FilteredConcat([s[0]], s[1..], eq);
    }
  }

  /** A list that is already ordered is left as it is, so sorting is idempotent. */
  lemma {:induction false} SortedByOfSorted<T>(s: seq<T>, cmp: (T, T) -> int)
    requires Sorted(s, cmp)
    ensures SortedBy(s, cmp) == s
  {
    if s != [] {
      var tail := s[1..];
      assert Sorted(tail, cmp) by {
        forall i, j | 0 <= i < j < |tail| ensures cmp(tail[i], tail[j]) <= 0 {
          assert tail[i] == s[i + 1] && tail[j] == s[j + 1];
        }
      }
      SortedByOfSorted(tail, cmp);
      assert s == [s[0]] + tail;
    }
  }

  lemma SortedByIdempotent<T(!new)>(s: seq<T>, cmp: (T, T) -> int)
    requires ComparatorContract(cmp)
    ensures SortedBy(SortedBy(s, cmp), cmp) == SortedBy(s, cmp)
  {
    SortedByIsSorted(s, cmp);
    SortedByOfSorted(SortedBy(s, cmp), cmp);
  }

  /** A list in which no class of equal-comparing items appears is empty. */
  lemma NoClassMeansEmpty<T(!new)>(w: seq<T>, cmp: (T, T) -> int)
    requires ComparatorContract(cmp)
    requires forall key :: Filtered(w, EquivalentTo(cmp, key)) == []
    ensures w == []
  {
    if w != [] {
      var last := w[|w| - 1];
      assert SignFlips(cmp, last, last);
      FilteredEndsWithLast(w, EquivalentTo(cmp, last));
    }
  }

  /**
   * When the class of `u`'s last item is filtered alike in `v`, and `v`'s last
   * item belongs to that class, the two last items are the same.
   */
  lemma SameClassSameLast<T(!new)>(u: seq<T>, v: seq<T>, cmp: (T, T) -> int)
    requires ComparatorContract(cmp)
    requires u != [] && v != []
    requires Filtered(u, EquivalentTo(cmp, u[|u| - 1])) == Filtered(v, EquivalentTo(cmp, u[|u| - 1]))
    requires cmp(v[|v| - 1], u[|u| - 1]) == 0
    ensures u[|u| - 1] == v[|v| - 1]
  {
    var ul := u[|u| - 1];
    assert SignFlips(cmp, ul, ul);
    FilteredEndsWithLast(u, EquivalentTo(cmp, ul));
    FilteredEndsWithLast(v, EquivalentTo(cmp, ul));
  }

  /** In a sorted list, the last item of any class compares at most equal to the list's last item. */
  lemma {:induction false} ClassLastAtMostLast<T(!new)>(v: seq<T>, cmp: (T, T) -> int, key: T)
    requires ComparatorContract(cmp)
    requires Sorted(v, cmp) && Filtered(v, EquivalentTo(cmp, key)) != []
    ensures var f := Filtered(v, EquivalentTo(cmp, key)); cmp(f[|f| - 1], v[|v| - 1]) <= 0
  {
    var vl, v' := v[|v| - 1], v[..|v| - 1];
    if EquivalentTo(cmp, key)(vl) {
      assert SignFlips(cmp, vl, vl);
    } else {
      assert Sorted(v', cmp);
      ClassLastAtMostLast(v', cmp, key);
      var f := Filtered(v', EquivalentTo(cmp, key));
      AtMostTransitive(cmp, f[|f| - 1], v'[|v'| - 1], vl);
    }
  }

  /**
   * If `u`'s last item has its class ordered alike in a sorted `v`, it compares
   * at most equal to `v`'s last item.
   */
  lemma LastAtMostOtherLast<T(!new)>(u: seq<T>, v: seq<T>, cmp: (T, T) -> int)
    requires ComparatorContract(cmp)
    requires Sorted(v, cmp) && u != [] && v != []
    requires Filtered(u, EquivalentTo(cmp, u[|u| - 1])) == Filtered(v, EquivalentTo(cmp, u[|u| - 1]))
    ensures cmp(u[|u| - 1], v[|v| - 1]) <= 0
  {
    var x := u[|u| - 1];
    assert SignFlips(cmp, x, x);
    FilteredEndsWithLast(u, EquivalentTo(cmp, x));
    ClassLastAtMostLast(v, cmp, x);
  }

  /**
   * Sorted lists in which the classes of both last items appear in the same
   * order end with items that compare equal.
   */
  lemma LastsCompareEqual<T(!new)>(u: seq<T>, v: seq<T>, cmp: (T, T) -> int)
    requires ComparatorContract(cmp)
    requires Sorted(u, cmp) && Sorted(v, cmp) && u != [] && v != []
    requires Filtered(u, EquivalentTo(cmp, u[|u| - 1])) == Filtered(v, EquivalentTo(cmp, u[|u| - 1]))
    requires Filtered(u, EquivalentTo(cmp, v[|v| - 1])) == Filtered(v, EquivalentTo(cmp, v[|v| - 1]))
    ensures cmp(v[|v| - 1], u[|u| - 1]) == 0
  {
    LastAtMostOtherLast(u, v, cmp);
    LastAtMostOtherLast(v, u, cmp);
    assert SignFlips(cmp, u[|u| - 1], v[|v| - 1]);
  }

  /** Every prefix of a sorted list is sorted. */
  lemma SortedPrefix<T>(s: seq<T>, cmp: (T, T) -> int, n: nat)
    requires Sorted(s, cmp) && n <= |s|
    ensures Sorted(s[..n], cmp)
  {
  }

  /**
   * Two sorted lists in which every class of equal-comparing items appears in
   * the same order are the same list.
   */
  lemma {:induction false} SortedUnique<T(!new)>(u: seq<T>, v: seq<T>, cmp: (T, T) -> int)
    requires ComparatorContract(cmp)
    requires Sorted(u, cmp) && Sorted(v, cmp)
    requires forall key :: Filtered(u, EquivalentTo(cmp, key)) == Filtered(v, EquivalentTo(cmp, key))
    ensures u == v
    decreases |u| + |v|
  {
    if u == [] {
      NoClassMeansEmpty(v, cmp);
    } else if v == [] {
      NoClassMeansEmpty(u, cmp);
    } else {
      var x, y := u[|u| - 1], v[|v| - 1];
      assert Filtered(u, EquivalentTo(cmp, x)) == Filtered(v, EquivalentTo(cmp, x));
      assert Filtered(u, EquivalentTo(cmp, y)) == Filtered(v, EquivalentTo(cmp, y));
      LastsCompareEqual(u, v, cmp);
      SameClassSameLast(u, v, cmp);
      var u', v' := u[..|u| - 1], v[..|v| - 1];
      assert u == u' + [x] && v == v' + [x];
      forall key ensures Filtered(u', EquivalentTo(cmp, key)) == Filtered(v', EquivalentTo(cmp, key)) {
        FilteredDropCommonLast(u', v', x, EquivalentTo(cmp, key));
      }
      SortedPrefix(u, cmp, |u'|);
      SortedPrefix(v, cmp, |v'|);
      SortedUnique(u', v', cmp);
    }
  }

  /**
   * Any sorted arrangement that keeps every class of equal-comparing items in
   * its original order is the list `SortedBy` gives: a stable sort has one result.
   */
  lemma StableSortIsSortedBy<T(!new)>(s: seq<T>, t: seq<T>, cmp: (T, T) -> int)
    requires ComparatorContract(cmp)
    requires Sorted(t, cmp)
    requires forall key :: Filtered(t, EquivalentTo(cmp, key)) == Filtered(s, EquivalentTo(cmp, key))
    ensures t == SortedBy(s, cmp)
  {
    SortedByIsSorted(s, cmp);
    forall key ensures Filtered(t, EquivalentTo(cmp, key)) == Filtered(SortedBy(s, cmp), EquivalentTo(cmp, key)) {
      SortedByIsStable(s, cmp, key);
    }
    SortedUnique(t, SortedBy(s, cmp), cmp);
  }
}
