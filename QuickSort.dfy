/** QuickSort.py: quick sort with the last element as pivot and a three-way
    partition into fresh lists; the input list is never changed (here it is
    a value, so it cannot be). */
module QuickSort {
  import opened SortedSeqs

  /** Every element is below, equal to, or above the pivot. */
  ghost predicate AllBelow(s: seq<int>, pivot: int) { forall i :: 0 <= i < |s| ==> s[i] < pivot }
  ghost predicate AllEqual(s: seq<int>, pivot: int) { forall i :: 0 <= i < |s| ==> s[i] == pivot }
  ghost predicate AllAbove(s: seq<int>, pivot: int) { forall i :: 0 <= i < |s| ==> s[i] > pivot }

  /** The partition loop of `quick_sort`: one pass over `arr`, appending
      each element to `left` (< pivot), `right` (> pivot) or `equal`. The
      three lists hold exactly the elements of `arr`, split by comparison
      with the pivot. */
  method Partition(arr: seq<int>, pivot: int) returns (left: seq<int>, equal: seq<int>, right: seq<int>)
    ensures AllBelow(left, pivot) && AllEqual(equal, pivot) && AllAbove(right, pivot)
    ensures multiset(left) + multiset(equal) + multiset(right) == multiset(arr)
  {
    left, right, equal := [], [], [];
    for k := 0 to |arr|
      invariant AllBelow(left, pivot) && AllEqual(equal, pivot) && AllAbove(right, pivot)
      invariant multiset(left) + multiset(equal) + multiset(right) == multiset(arr[..k])
    {
      var element := arr[k];
      assert multiset(arr[..k + 1]) == multiset(arr[..k]) + multiset{element} by {
        assert arr[..k + 1] == arr[..k] + [element];
      }
      if element < pivot {
        left := left + [element];
      } else if element > pivot {
        right := right + [element];
      } else {
        equal := equal + [element];
      }
    }
    assert arr[..|arr|] == arr;
  }

  /** `quick_sort(arr)`: lists of length at most 1 come back as they are;
      otherwise the sorted `left`, then `equal`, then the sorted `right`. The
      result is sorted and a permutation of the input. The pivot always lands
      in `equal`, so both recursive calls are on strictly shorter lists. */
  method QuickSort(arr: seq<int>) returns (r: seq<int>)
    ensures Sorted(r)
    ensures multiset(r) == multiset(arr)
    ensures |arr| <= 1 ==> r == arr
    decreases |arr|
  {
    if |arr| <= 1 {
      return arr;
    }
    var pivot := arr[|arr| - 1];
    var left, equal, right := Partition(arr, pivot);
    assert pivot in multiset(arr);
    assert |left| + |equal| + |right| == |arr| by {
      assert |multiset(left) + multiset(equal) + multiset(right)| == |multiset(arr)|;
    }
    assert pivot in multiset(equal) by {
      assert pivot !in multiset(left) && pivot !in multiset(right);
    }
    var sortedLeft := QuickSort(left);
    var sortedRight := QuickSort(right);
    forall i | 0 <= i < |sortedLeft| ensures sortedLeft[i] < pivot {
      assert sortedLeft[i] in multiset(left);
      var k :| 0 <= k < |left| && left[k] == sortedLeft[i];
    }
    forall i | 0 <= i < |sortedRight| ensures sortedRight[i] > pivot {
      assert sortedRight[i] in multiset(right);
      var k :| 0 <= k < |right| && right[k] == sortedRight[i];
    }
    assert Sorted(equal);
    assert AllLe(sortedLeft, equal);
    SortedConcat(sortedLeft, equal);
    assert AllLe(sortedLeft + equal, sortedRight);
    SortedConcat(sortedLeft + equal, sortedRight);
    r := sortedLeft + equal + sortedRight;
  }

  /** The demonstration's list. */
  method QuickSortSample() returns (r: seq<int>)
    ensures r == [9, 10, 11, 25, 27, 33, 42, 59, 82]
  {
    r := QuickSort([33, 10, 59, 27, 25, 82, 11, 9, 42]);
    SamplePermutation();
    SampleSorted();
    SortedUnique(r, [9, 10, 11, 25, 27, 33, 42, 59, 82]);
  }

  lemma SamplePermutation()
    ensures multiset([33, 10, 59, 27, 25, 82, 11, 9, 42]) == multiset([9, 10, 11, 25, 27, 33, 42, 59, 82])
  {
    SampleInput();
    SampleRearranged();
    SampleOutput();
  }

  lemma SampleInput()
    ensures multiset([33, 10, 59, 27, 25, 82, 11, 9, 42]) == multiset{33, 10, 59, 27, 25, 82, 11, 9, 42}
  {
  }

  lemma SampleRearranged()
    ensures multiset{33, 10, 59, 27, 25, 82, 11, 9, 42} == multiset{9, 10, 11, 25, 27, 33, 42, 59, 82}
  {
  }

  lemma SampleOutput()
    ensures multiset([9, 10, 11, 25, 27, 33, 42, 59, 82]) == multiset{9, 10, 11, 25, 27, 33, 42, 59, 82}
  {
  }

  lemma SampleSorted()
    ensures Sorted([9, 10, 11, 25, 27, 33, 42, 59, 82])
  {
  }
}
