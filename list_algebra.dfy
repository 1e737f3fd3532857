/**
 * The java.util list operations the adapter delegates to, as functions on
 * sequences: `List.indexOf`, `List.remove(Object)`, the copy loop of
 * `filter`, and `Collections.reverse`.
 */
module ListAlgebra {

  /** `List.indexOf`: the least index holding `x`, or -1 when there is none. */
  function IndexOf<T(==)>(s: seq<T>, x: T): (r: int)
    ensures -1 <= r < |s|
    ensures r == -1 <==> x !in s
    ensures 0 <= r ==> s[r] == x && forall j :: 0 <= j < r ==> s[j] != x
  {
    if s == [] then -1
    else if s[0] == x then 0
    else
      var k := IndexOf(s[1..], x);
      assert s == [s[0]] + s[1..];
      if k == -1 then -1 else k + 1
  }

  /** `List.remove(Object)`: drops the first element equal to `x`, if any. */
  function RemoveFirst<T(==)>(s: seq<T>, x: T): (r: seq<T>)
  {
    if s == [] then []
    else if s[0] == x then s[1..]
    else [s[0]] + RemoveFirst(s[1..], x)
  }

  /** Removal is a splice at the first occurrence, and the identity when `x` is absent. */
  lemma {:induction false} RemoveFirstSplice<T>(s: seq<T>, x: T)
    ensures var i := IndexOf(s, x);
            RemoveFirst(s, x) == if i == -1 then s else s[..i] + s[i + 1..]
  {
    if s != [] && s[0] != x {
      var tail := s[1..];
      RemoveFirstSplice(tail, x);
      var k := IndexOf(tail, x);
      assert IndexOf(s, x) == if k == -1 then -1 else k + 1;
      if k == -1 {
        assert RemoveFirst(s, x) == [s[0]] + tail == s;
      } else {
        calc {
          RemoveFirst(s, x);
          [s[0]] + RemoveFirst(tail, x);
          [s[0]] + (tail[..k] + tail[k + 1..]);
          { assert [s[0]] + tail[..k] == s[..k + 1]; assert tail[k + 1..] == s[k + 2..]; }
          s[..k + 1] + s[k + 2..];
        }
      }
    }
  }

  /** Removal takes away exactly one occurrence of `x`, and only when there is one. */
  lemma {:induction false} RemoveFirstMultiset<T>(s: seq<T>, x: T)
    ensures multiset(RemoveFirst(s, x)) == multiset(s) - multiset{x}
    ensures |RemoveFirst(s, x)| == if x in s then |s| - 1 else |s|
  {
    if s != [] {
      assert s == [s[0]] + s[1..];
      if s[0] != x {
        RemoveFirstMultiset(s[1..], x);
      }
    }
  }

  /** Removing an item that was just appended, and was not there before, restores the list. */
  lemma {:induction false} RemoveFirstOfAppended<T>(s: seq<T>, x: T)
    requires x !in s
    ensures RemoveFirst(s + [x], x) == s
  {
    if s != [] {
      assert (s + [x])[1..] == s[1..] + [x];
      RemoveFirstOfAppended(s[1..], x);
    }
  }

  /** The elements of `s` that `accept` keeps, in their original order. */
  function Filtered<T>(s: seq<T>, accept: T -> bool): (r: seq<T>)
  {
    if s == [] then []
    else
      var last := s[|s| - 1];
      Filtered(s[..|s| - 1], accept) + (if accept(last) then [last] else [])
  }

  /** Filtering keeps exactly the accepted occurrences: no more, no fewer. */
  lemma {:induction false} FilteredExact<T>(s: seq<T>, accept: T -> bool)
    ensures |Filtered(s, accept)| <= |s|
    ensures forall i :: 0 <= i < |Filtered(s, accept)| ==> accept(Filtered(s, accept)[i])
    ensures forall x :: multiset(Filtered(s, accept))[x] == if accept(x) then multiset(s)[x] else 0
  {
    if s != [] {
      var init, last := s[..|s| - 1], s[|s| - 1];
      assert s == init + [last];
      FilteredExact(init, accept);
    }
  }

  /** Filtering distributes over concatenation, so relative order is kept. */
  lemma {:induction false} FilteredConcat<T>(a: seq<T>, b: seq<T>, accept: T -> bool)
    ensures Filtered(a + b, accept) == Filtered(a, accept) + Filtered(b, accept)
  {
    if b != [] {
      var init, last := b[..|b| - 1], b[|b| - 1];
      assert a + b == (a + init) + [last];
      assert (a + b)[..|a + b| - 1] == a + init;
      FilteredConcat(a, init, accept);
    } else {
      assert a + b == a;
    }
  }

  /** Filtering a list whose every element is accepted leaves it as it is. */
  lemma {:induction false} FilteredAllAccepted<T>(s: seq<T>, accept: T -> bool)
    requires forall i :: 0 <= i < |s| ==> accept(s[i])
    ensures Filtered(s, accept) == s
  {
    if s != [] {
      assert s == s[..|s| - 1] + [s[|s| - 1]];
      FilteredAllAccepted(s[..|s| - 1], accept);
    }
  }

  /** Applying the same filter twice is the same as applying it once. */
  lemma FilteredIdempotent<T>(s: seq<T>, accept: T -> bool)
    ensures Filtered(Filtered(s, accept), accept) == Filtered(s, accept)
  {
    FilteredExact(s, accept);
    FilteredAllAccepted(Filtered(s, accept), accept);
  }

  /** When the last element is accepted, it is also the last element kept. */
  lemma FilteredEndsWithLast<T>(s: seq<T>, accept: T -> bool)
    requires s != [] && accept(s[|s| - 1])
    ensures Filtered(s, accept) != [] && Filtered(s, accept)[|Filtered(s, accept)| - 1] == s[|s| - 1]
  {
  }

  /** Equal filterings of two lists that end alike are equal without that last item. */
  lemma FilteredDropCommonLast<T>(a: seq<T>, b: seq<T>, x: T, accept: T -> bool)
    requires Filtered(a + [x], accept) == Filtered(b + [x], accept)
    ensures Filtered(a, accept) == Filtered(b, accept)
  {
    assert (a + [x])[..|a|] == a && (b + [x])[..|b|] == b;
    var tail := if accept(x) then [x] else [];
    var fa, fb := Filtered(a, accept), Filtered(b, accept);
    assert fa + tail == fb + tail;
    assert fa == (fa + tail)[..|fa|] == (fb + tail)[..|fb|] == fb;
  }

  /** `Collections.reverse`: element `k` of the result is element `|s| - 1 - k` of `s`. */
  function Reversed<T>(s: seq<T>): (r: seq<T>)
    ensures |r| == |s|
    ensures forall k :: 0 <= k < |s| ==> r[k] == s[|s| - 1 - k]
  {
    if s == [] then [] else [s[|s| - 1]] + Reversed(s[..|s| - 1])
  }

  /** Reversing twice restores the list. */
  lemma ReversedInvolutive<T>(s: seq<T>)
    ensures Reversed(Reversed(s)) == s
  {
  }

  /** Reversal is a permutation. */
  lemma {:induction false} ReversedMultiset<T>(s: seq<T>)
    ensures multiset(Reversed(s)) == multiset(s)
  {
    if s != [] {
      var init := s[..|s| - 1];
      assert s == init + [s[|s| - 1]];
      ReversedMultiset(init);
    }
  }
}
