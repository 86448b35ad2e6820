/** Order-preserving selection of elements from a sequence. */
module Sequences {

  /**
   `a` can be obtained from `b` by deleting elements: the last element of `b`
   is either the last element of `a` (kept) or deleted.
   */
  predicate IsSubsequence<T(==)>(a: seq<T>, b: seq<T>)
    decreases |b|
  {
    if |a| == 0 then true
    else if |b| == 0 then false
    else
      || (a[|a| - 1] == b[|b| - 1] && IsSubsequence(a[..|a| - 1], b[..|b| - 1]))
      || IsSubsequence(a, b[..|b| - 1])
  }

  /** Appending one element to the longer sequence keeps the relation. */
  lemma SubsequenceOfSnoc<T>(a: seq<T>, b: seq<T>, x: T)
    requires IsSubsequence(a, b)
    ensures IsSubsequence(a, b + [x])
    ensures IsSubsequence(a + [x], b + [x])
  {
    assert (b + [x])[..|b|] == b;
    assert (a + [x])[..|a|] == a;
  }

  /** A subsequence of a subsequence is a subsequence. */
  lemma {:induction false} SubsequenceTransitive<T>(a: seq<T>, b: seq<T>, c: seq<T>)
    requires IsSubsequence(a, b) && IsSubsequence(b, c)
    ensures IsSubsequence(a, c)
    decreases |c|
  {
    if |a| == 0 {
    } else {
      var c' := c[..|c| - 1];
      if IsSubsequence(b, c') {
        SubsequenceTransitive(a, b, c');
      } else {
        var b' := b[..|b| - 1];
        assert b[|b| - 1] == c[|c| - 1] && IsSubsequence(b', c');
        if a[|a| - 1] == b[|b| - 1] && IsSubsequence(a[..|a| - 1], b') {
          SubsequenceTransitive(a[..|a| - 1], b', c');
        } else {
          SubsequenceTransitive(a, b', c');
        }
      }
    }
  }

  /** The elements of `s` that `keep` accepts, in their original order. */
  function Filter<T>(keep: T -> bool, s: seq<T>): (r: seq<T>)
    ensures |r| <= |s|
    ensures forall k :: 0 <= k < |r| ==> keep(r[k])
    decreases |s|
  {
    if |s| == 0 then []
    else if keep(s[|s| - 1]) then Filter(keep, s[..|s| - 1]) + [s[|s| - 1]]
    else Filter(keep, s[..|s| - 1])
  }

  /** Filtering keeps the order of the elements it keeps. */
  lemma {:induction false} FilterIsSubsequence<T>(keep: T -> bool, s: seq<T>)
    ensures IsSubsequence(Filter(keep, s), s)
    decreases |s|
  {
    if |s| > 0 {
      var init := s[..|s| - 1];
      FilterIsSubsequence(keep, init);
      assert s == init + [s[|s| - 1]];
      SubsequenceOfSnoc(Filter(keep, init), init, s[|s| - 1]);
    }
  }

  /** Filtering keeps every accepted element as often as it occurs, and nothing else. */
  lemma {:induction false} FilterOccurrences<T>(keep: T -> bool, s: seq<T>, x: T)
    ensures multiset(Filter(keep, s))[x] == if keep(x) then multiset(s)[x] else 0
    decreases |s|
  {
    if |s| > 0 {
      var init := s[..|s| - 1];
      FilterOccurrences(keep, init, x);
      assert s == init + [s[|s| - 1]];
    }
  }

  /** Nothing survives the filter exactly when nothing is accepted. */
  lemma {:induction false} FilterEmpty<T>(keep: T -> bool, s: seq<T>)
    ensures Filter(keep, s) == [] <==> forall k :: 0 <= k < |s| ==> !keep(s[k])
    decreases |s|
  {
    if |s| > 0 {
      var init := s[..|s| - 1];
      FilterEmpty(keep, init);
      assert forall k :: 0 <= k < |init| ==> s[k] == init[k];
    }
  }

  /** Two complementary filters split a sequence between them. */
  lemma {:induction false} FilterSplit<T>(keep: T -> bool, drop: T -> bool, s: seq<T>)
    requires forall k :: 0 <= k < |s| ==> drop(s[k]) == !keep(s[k])
    ensures |Filter(keep, s)| + |Filter(drop, s)| == |s|
    decreases |s|
  {
    if |s| > 0 {
      var init := s[..|s| - 1];
      assert forall k :: 0 <= k < |init| ==> init[k] == s[k];
      FilterSplit(keep, drop, init);
    }
  }

  /** Whatever holds of every element of `s` holds of every element that survives the filter. */
  lemma {:induction false} FilterPreserves<T>(keep: T -> bool, holds: T -> bool, s: seq<T>)
    requires forall k :: 0 <= k < |s| ==> holds(s[k])
    ensures forall k :: 0 <= k < |Filter(keep, s)| ==> holds(Filter(keep, s)[k])
    decreases |s|
  {
    if |s| > 0 {
      var init := s[..|s| - 1];
      assert forall k :: 0 <= k < |init| ==> init[k] == s[k];
      FilterPreserves(keep, holds, init);
    }
  }

  /** A filter that accepts every element changes nothing. */
  lemma {:induction false} FilterKeepsAll<T>(keep: T -> bool, s: seq<T>)
    requires forall k :: 0 <= k < |s| ==> keep(s[k])
    ensures Filter(keep, s) == s
    decreases |s|
  {
    if |s| > 0 {
      var init := s[..|s| - 1];
      assert forall k :: 0 <= k < |init| ==> init[k] == s[k];
      FilterKeepsAll(keep, init);
    }
  }

  /** Filtering a single element keeps it exactly when it is accepted. */
  lemma FilterSingleton<T>(keep: T -> bool, a: T)
    ensures Filter(keep, [a]) == if keep(a) then [a] else []
  {
    assert [a][..0] == [];
  }

  /** Filtering distributes over concatenation. */
  lemma {:induction false} FilterAppend<T>(keep: T -> bool, a: seq<T>, b: seq<T>)
    ensures Filter(keep, a + b) == Filter(keep, a) + Filter(keep, b)
    decreases |b|
  {
    if |b| == 0 {
      assert a + b == a;
    } else {
      var init := b[..|b| - 1];
      assert (a + b)[..|a + b| - 1] == a + init;
      FilterAppend(keep, a, init);
    }
  }

  /** A filter that accepts everything except one element removes exactly that element. */
  lemma FilterDropsOne<T>(keep: T -> bool, a: seq<T>, x: T, b: seq<T>)
    requires forall k :: 0 <= k < |a| ==> keep(a[k])
    requires !keep(x)
    requires forall k :: 0 <= k < |b| ==> keep(b[k])
    ensures Filter(keep, a + [x] + b) == a + b
  {
    FilterAppend(keep, a, [x]);
    FilterAppend(keep, a + [x], b);
    FilterSingleton(keep, x);
    FilterKeepsAll(keep, a);
    FilterKeepsAll(keep, b);
  }

  /** A filter that accepts no member of `s` leaves nothing. */
  lemma FilterNone<T>(keep: T -> bool, s: seq<T>)
    requires forall x :: x in s ==> !keep(x)
    ensures Filter(keep, s) == []
  {
    FilterEmpty(keep, s);
  }
}
