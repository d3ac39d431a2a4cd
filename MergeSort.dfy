/** MergeSort.py: top-down merge sort. `merge_sort` copies the two halves of
    the list into fresh lists, sorts each copy recursively in place, and
    `merge` then overwrites the original list from the two sorted copies. */
module MergeSort {
  import opened SortedSeqs

  /** The sequence `merge` writes from positions `i` of `left` and `j` of
      `right` on, as a reference definition: repeatedly take the smaller
      head, taking the head of `right` when the two heads are equal (the
      comparison is a strict `<`), then the leftovers of whichever list is
      not used up. */
  function MergedFrom(left: seq<int>, right: seq<int>, i: nat, j: nat): seq<int>
    requires i <= |left| && j <= |right|
    decreases |left| - i + |right| - j
  {
    if i == |left| then right[j..]
    else if j == |right| then left[i..]
    else if left[i] < right[j] then [left[i]] + MergedFrom(left, right, i + 1, j)
    else [right[j]] + MergedFrom(left, right, i, j + 1)
  }

  /** The whole merge of two lists. */
  function Merged(left: seq<int>, right: seq<int>): seq<int>
  {
    MergedFrom(left, right, 0, 0)
  }

  /** Merging keeps every element of both inputs, with multiplicity. */
  lemma {:induction false} MergedPermutes(left: seq<int>, right: seq<int>, i: nat, j: nat)
    requires i <= |left| && j <= |right|
    ensures multiset(MergedFrom(left, right, i, j)) == multiset(left[i..]) + multiset(right[j..])
    decreases |left| - i + |right| - j
  {
    if i == |left| {
      assert left[i..] == [];
    } else if j == |right| {
      assert right[j..] == [];
    } else if left[i] < right[j] {
      MergedPermutes(left, right, i + 1, j);
      SuffixMultiset(left, i);
    } else {
      MergedPermutes(left, right, i, j + 1);
      SuffixMultiset(right, j);
    }
  }

  /** A suffix holds its first element plus the next suffix. */
  lemma SuffixMultiset(s: seq<int>, i: nat)
    requires i < |s|
    ensures multiset(s[i..]) == multiset{s[i]} + multiset(s[i + 1..])
  {
    assert s[i..] == [s[i]] + s[i + 1..];
  }

  /** Merging two sorted inputs gives a sorted output. */
  lemma {:induction false} MergedSorted(left: seq<int>, right: seq<int>, i: nat, j: nat)
    requires i <= |left| && j <= |right|
    requires Sorted(left) && Sorted(right)
    ensures Sorted(MergedFrom(left, right, i, j))
    decreases |left| - i + |right| - j
  {
    if i == |left| {
      SortedSlice(right, j);
    } else if j == |right| {
      SortedSlice(left, i);
    } else if left[i] < right[j] {
      MergedSorted(left, right, i + 1, j);
      MergedHead(left, right, i + 1, j, left[i]);
      SortedCons(left[i], MergedFrom(left, right, i + 1, j));
    } else {
      MergedSorted(left, right, i, j + 1);
      MergedHead(left, right, i, j + 1, right[j]);
      SortedCons(right[j], MergedFrom(left, right, i, j + 1));
    }
  }

  /** A lower bound on both next elements is a lower bound on the head of the
      rest of the merge. */
  lemma MergedHead(left: seq<int>, right: seq<int>, i: nat, j: nat, x: int)
    requires i <= |left| && j <= |right|
    requires Sorted(left) && Sorted(right)
    requires i < |left| ==> x <= left[i]
    requires j < |right| ==> x <= right[j]
    ensures MergedFrom(left, right, i, j) != [] ==> x <= MergedFrom(left, right, i, j)[0]
  {
  }

  /** The merge of two sorted lists is sorted and holds the elements of both. */
  lemma MergedSortedPermutation(left: seq<int>, right: seq<int>)
    requires Sorted(left) && Sorted(right)
    ensures Sorted(Merged(left, right))
    ensures multiset(Merged(left, right)) == multiset(left) + multiset(right)
  {
    MergedSorted(left, right, 0, 0);
    MergedPermutes(left, right, 0, 0);
    assert left[0..] == left && right[0..] == right;
  }

  /** The merge takes the next element of `left` when it is strictly smaller
      than the next element of `right`, or when `right` is used up. */
  lemma TakeLeft(left: seq<int>, right: seq<int>, i: nat, j: nat)
    requires i < |left| && j <= |right|
    requires j == |right| || left[i] < right[j]
    ensures MergedFrom(left, right, i, j) == [left[i]] + MergedFrom(left, right, i + 1, j)
  {
    if j == |right| && i + 1 == |left| {
      assert right[j..] == [];
    }
  }

  /** The merge takes the next element of `right` when it is at most the next
      element of `left` (so on a tie), or when `left` is used up. */
  lemma TakeRight(left: seq<int>, right: seq<int>, i: nat, j: nat)
    requires i <= |left| && j < |right|
    requires i == |left| || left[i] >= right[j]
    ensures MergedFrom(left, right, i, j) == [right[j]] + MergedFrom(left, right, i, j + 1)
  {
    if i == |left| {
      assert right[j..] == [right[j]] + right[j + 1..];
    }
  }

  /** `merge(arr, left, right)`: three `while` loops over the counters `i`,
      `j` and `k = i + j`, overwriting `arr[k]`. The first
      `|left| + |right|` positions of `arr` become the merge of the two
      lists. */
  method Merge(arr: array<int>, left: array<int>, right: array<int>)
    requires arr != left && arr != right
    requires arr.Length == left.Length + right.Length
    modifies arr
    ensures arr[..] == Merged(left[..], right[..])
  {
    ghost var l, r := left[..], right[..];
    ghost var written: seq<int> := [];
    var i, j, k := 0, 0, 0;
    while i < left.Length && j < right.Length
      invariant 0 <= i <= left.Length && 0 <= j <= right.Length && k == i + j == |written|
      invariant forall p :: 0 <= p < k ==> arr[p] == written[p]
      invariant written + MergedFrom(l, r, i, j) == Merged(l, r)
    {
      if left[i] < right[j] {
        TakeLeft(l, r, i, j);
        Shift(written, left[i], MergedFrom(l, r, i + 1, j));
        arr[k] := left[i];
        written := written + [left[i]];
        i := i + 1;
      } else {
        TakeRight(l, r, i, j);
        Shift(written, right[j], MergedFrom(l, r, i, j + 1));
        arr[k] := right[j];
        written := written + [right[j]];
        j := j + 1;
      }
      k := k + 1;
    }
    while i < left.Length
      invariant 0 <= i <= left.Length && 0 <= j <= right.Length && k == i + j == |written|
      invariant i == left.Length || j == right.Length
      invariant forall p :: 0 <= p < k ==> arr[p] == written[p]
      invariant written + MergedFrom(l, r, i, j) == Merged(l, r)
    {
      TakeLeft(l, r, i, j);
      Shift(written, left[i], MergedFrom(l, r, i + 1, j));
      arr[k] := left[i];
      written := written + [left[i]];
      i := i + 1;
      k := k + 1;
    }
    while j < right.Length
      invariant i == left.Length && 0 <= j <= right.Length && k == i + j == |written|
      invariant forall p :: 0 <= p < k ==> arr[p] == written[p]
      invariant written + MergedFrom(l, r, i, j) == Merged(l, r)
    {
      TakeRight(l, r, i, j);
      Shift(written, right[j], MergedFrom(l, r, i, j + 1));
      arr[k] := right[j];
      written := written + [right[j]];
      j := j + 1;
      k := k + 1;
    }
    assert arr[..] == written;
  }

  /** Moving one element from the front of the unwritten part to the end of
      the written part. */
  lemma Shift(written: seq<int>, x: int, rest: seq<int>)
    ensures written + ([x] + rest) == (written + [x]) + rest
  {
  }

  /** `merge_sort(arr)`: lists longer than one element are split at
      `len // 2` into fresh copies, both copies are sorted recursively, and
      `merge` writes them back. The list ends up sorted and a permutation of
      its old contents; shorter lists are left as they are. */
  method MergeSort(arr: array<int>)
    modifies arr
    ensures Sorted(arr[..])
    ensures multiset(arr[..]) == multiset(old(arr[..]))
    ensures arr.Length <= 1 ==> arr[..] == old(arr[..])
    decreases arr.Length
  {
    if arr.Length > 1 {
      ghost var original := arr[..];
      var mid := arr.Length / 2;
      var leftHalf := new int[mid];
      forall i | 0 <= i < mid {
        leftHalf[i] := arr[i];
      }
      var rightHalf := new int[arr.Length - mid];
      forall i | 0 <= i < arr.Length - mid {
        rightHalf[i] := arr[mid + i];
      }
      assert leftHalf[..] == original[..mid];
      assert rightHalf[..] == original[mid..];
      SplitMultiset(original, mid);
      MergeSort(leftHalf);
      MergeSort(rightHalf);
      MergedSortedPermutation(leftHalf[..], rightHalf[..]);
      Merge(arr, leftHalf, rightHalf);
    }
  }

  /** The two halves hold the elements of the whole. */
  lemma SplitMultiset(s: seq<int>, mid: nat)
    requires mid <= |s|
    ensures multiset(s) == multiset(s[..mid]) + multiset(s[mid..])
  {
    assert s == s[..mid] + s[mid..];
  }

  /** The demonstration's list. */
  method MergeSortSample() returns (sorted: seq<int>)
    ensures sorted == [3, 9, 10, 27, 38, 43, 82]
  {
    var arr := new int[7];
    arr[0], arr[1], arr[2], arr[3], arr[4], arr[5], arr[6] := 38, 27, 43, 3, 9, 82, 10;
    assert arr[..] == [38, 27, 43, 3, 9, 82, 10];
    MergeSort(arr);
    sorted := arr[..];
    SamplePermutation();
    SampleSorted();
    SortedUnique(sorted, [3, 9, 10, 27, 38, 43, 82]);
  }

  lemma SamplePermutation()
    ensures multiset([38, 27, 43, 3, 9, 82, 10]) == multiset([3, 9, 10, 27, 38, 43, 82])
  {
    SampleInput();
    SampleRearranged();
    SampleOutput();
  }

  lemma SampleInput()
    ensures multiset([38, 27, 43, 3, 9, 82, 10]) == multiset{38, 27, 43, 3, 9, 82, 10}
  {
  }

  lemma SampleRearranged()
    ensures multiset{38, 27, 43, 3, 9, 82, 10} == multiset{3, 9, 10, 27, 38, 43, 82}
  {
  }

  lemma SampleOutput()
    ensures multiset([3, 9, 10, 27, 38, 43, 82]) == multiset{3, 9, 10, 27, 38, 43, 82}
  {
  }

  lemma SampleSorted()
    ensures Sorted([3, 9, 10, 27, 38, 43, 82])
  {
  }
}
