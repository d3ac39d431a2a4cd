/** Sortedness of integer sequences, shared by the search and sorting algorithms. */
module SortedSeqs {

  /** Non-decreasing order, stated for every pair of positions. */
  ghost predicate Sorted(s: seq<int>)
  {
    forall i, j :: 0 <= i < j < |s| ==> s[i] <= s[j]
  }

  /** Every element of `lo` is at most every element of `hi`. */
  ghost predicate AllLe(lo: seq<int>, hi: seq<int>)
  {
    forall i, j :: 0 <= i < |lo| && 0 <= j < |hi| ==> lo[i] <= hi[j]
  }

  /** The head of a non-empty sorted sequence is at most each of its elements. */
  lemma HeadIsLeast(s: seq<int>, x: int)
    requires Sorted(s) && x in multiset(s)
    ensures s != [] && s[0] <= x
  {
    assert x in s;
    var i :| 0 <= i < |s| && s[i] == x;
  }

  /** Dropping the head keeps a sequence sorted and removes one copy of the
      head from its elements. */
  lemma SortedTail(s: seq<int>)
    requires Sorted(s) && s != []
    ensures Sorted(s[1..])
    ensures multiset(s[1..]) == multiset(s) - multiset{s[0]}
  {
    assert s == [s[0]] + s[1..];
  }

  /** Every suffix of a sorted sequence is sorted. */
  lemma SortedSlice(s: seq<int>, i: nat)
    requires Sorted(s) && i <= |s|
    ensures Sorted(s[i..])
  {
  }

  /** Putting an element no larger than the head in front keeps a sequence
      sorted. */
  lemma SortedCons(x: int, s: seq<int>)
    requires Sorted(s) && (s != [] ==> x <= s[0])
    ensures Sorted([x] + s)
  {
  }

  /** Two non-empty sorted sequences with the same elements share their head,
      and their tails are again sorted with the same elements. */
  lemma SameHead(a: seq<int>, b: seq<int>)
    requires Sorted(a) && Sorted(b) && a != []
    requires multiset(a) == multiset(b)
    ensures b != [] && a[0] == b[0]
    ensures Sorted(a[1..]) && Sorted(b[1..])
    ensures multiset(a[1..]) == multiset(b[1..])
  {
    assert a[0] in multiset(a);
    HeadIsLeast(b, a[0]);
    assert b[0] in multiset(b);
    HeadIsLeast(a, b[0]);
    SortedTail(a);
    SortedTail(b);
  }

  /** Two sorted sequences with the same elements (as multisets) are equal:
      sortedness plus permutation pins the output of a sort down completely. */
  lemma {:induction false} SortedUnique(a: seq<int>, b: seq<int>)
    requires Sorted(a) && Sorted(b)
    requires multiset(a) == multiset(b)
    ensures a == b
    decreases |a|
  {
    if a == [] {
      assert |b| == |multiset(b)| == 0;
    } else {
      SameHead(a, b);
      SortedUnique(a[1..], b[1..]);
      assert a == [a[0]] + a[1..] && b == [b[0]] + b[1..];
    }
  }

  /** Concatenating two sorted sequences that are ordered with respect to each
      other gives a sorted sequence. */
  lemma SortedConcat(lo: seq<int>, hi: seq<int>)
    requires Sorted(lo) && Sorted(hi) && AllLe(lo, hi)
    ensures Sorted(lo + hi)
  {
  }
}
