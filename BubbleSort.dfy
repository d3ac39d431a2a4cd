/** BubbleSort.py: in-place bubble sort with adjacent swaps and an early exit
    after a pass that swapped nothing. */
module BubbleSort {
  import opened SortedSeqs

  /** Positions `m` onwards are settled: every element there is at least
      every element before it. After pass `i` this holds for `m = n - i - 1`,
      so the last `i + 1` positions hold the largest elements in order. */
  ghost predicate SettledFrom(s: seq<int>, m: int)
  {
    forall p, q :: 0 <= p < q < |s| && m <= q ==> s[p] <= s[q]
  }

  /** Position `j` holds the largest of the first `j + 1` elements. */
  ghost predicate MaxAt(s: seq<int>, j: nat)
    requires j < |s|
  {
    forall p :: 0 <= p < j ==> s[p] <= s[j]
  }

  /** The first `j + 1` elements are in order. */
  ghost predicate SortedTo(s: seq<int>, j: nat)
    requires j < |s|
  {
    forall p, q :: 0 <= p < q <= j ==> s[p] <= s[q]
  }

  /** `s` with positions `j` and `j + 1` exchanged. */
  function Swapped(s: seq<int>, j: nat): (t: seq<int>)
    requires j + 1 < |s|
    ensures |t| == |s| && t[j] == s[j + 1] && t[j + 1] == s[j]
    ensures forall p :: 0 <= p < |s| && p != j && p != j + 1 ==> t[p] == s[p]
  {
    s[j := s[j + 1]][j + 1 := s[j]]
  }

  /** The swap branch of the inner loop: exchanging an out-of-order pair
      carries the larger element along, keeps the settled tail settled and
      keeps the elements. */
  lemma SwapStep(s: seq<int>, j: nat, m: nat)
    requires j + 1 < m <= |s|
    requires SettledFrom(s, m) && MaxAt(s, j) && s[j] > s[j + 1]
    ensures SettledFrom(Swapped(s, j), m) && MaxAt(Swapped(s, j), j + 1)
    ensures multiset(Swapped(s, j)) == multiset(s)
  {
  }

  /** The no-swap branch: a pair already in order moves the maximum along and
      extends an ordered prefix. */
  lemma KeepStep(s: seq<int>, j: nat)
    requires j + 1 < |s|
    requires MaxAt(s, j) && s[j] <= s[j + 1]
    ensures MaxAt(s, j + 1)
    ensures SortedTo(s, j) ==> SortedTo(s, j + 1)
  {
  }

  /** At the end of a pass the maximum of the unsettled part sits at its end,
      so one more position is settled; a pass without a swap leaves the whole
      list sorted. */
  lemma PassEnd(s: seq<int>, m: nat)
    requires 0 < m <= |s|
    requires SettledFrom(s, m) && MaxAt(s, m - 1)
    ensures SettledFrom(s, m - 1)
    ensures SortedTo(s, m - 1) ==> SettledFrom(s, 0)
  {
  }

  /** A tail settled from position 0 is a fully sorted list. */
  lemma SettledSorted(s: seq<int>)
    requires SettledFrom(s, 0)
    ensures Sorted(s)
  {
  }

  /** `bubble_sort(arr)`: pass `i` walks `j` from 0 to `n - i - 2`, swapping
      `arr[j]` and `arr[j + 1]` when the first is larger, so the largest
      element not yet settled ends at `n - i - 1`. A pass without a swap
      found every neighbouring pair in order, so the list is sorted and the
      outer loop stops. The list is sorted in place and returned. */
  method BubbleSort(arr: array<int>) returns (r: array<int>)
    modifies arr
    ensures r == arr
    ensures Sorted(arr[..])
    ensures multiset(arr[..]) == multiset(old(arr[..]))
  {
    var n := arr.Length;
    for i := 0 to n
      invariant SettledFrom(arr[..], n - i)
      invariant multiset(arr[..]) == multiset(old(arr[..]))
    {
      var swapped := false;
      for j := 0 to n - i - 1
        invariant SettledFrom(arr[..], n - i) && MaxAt(arr[..], j)
        invariant !swapped ==> SortedTo(arr[..], j)
        invariant multiset(arr[..]) == multiset(old(arr[..]))
      {
        if arr[j] > arr[j + 1] {
          ghost var before := arr[..];
          SwapStep(before, j, n - i);
          arr[j], arr[j + 1] := arr[j + 1], arr[j];
          assert arr[..] == Swapped(before, j);
          swapped := true;
        } else {
          KeepStep(arr[..], j);
        }
      }
      PassEnd(arr[..], n - i);
      if !swapped {
        break;
      }
    }
    SettledSorted(arr[..]);
    return arr;
  }

  /** The demonstration's list. */
  method BubbleSortSample() returns (sorted: seq<int>)
    ensures sorted == [11, 12, 22, 25, 34, 64, 90]
  {
    var arr := new int[7];
    arr[0], arr[1], arr[2], arr[3], arr[4], arr[5], arr[6] := 64, 34, 25, 12, 22, 11, 90;
    assert arr[..] == [64, 34, 25, 12, 22, 11, 90];
    var r := BubbleSort(arr);
    sorted := r[..];
    SamplePermutation();
    SampleSorted();
    SortedUnique(sorted, [11, 12, 22, 25, 34, 64, 90]);
  }

  lemma SamplePermutation()
    ensures multiset([64, 34, 25, 12, 22, 11, 90]) == multiset([11, 12, 22, 25, 34, 64, 90])
  {
    SampleInput();
    SampleRearranged();
    SampleOutput();
  }

  lemma SampleInput()
    ensures multiset([64, 34, 25, 12, 22, 11, 90]) == multiset{64, 34, 25, 12, 22, 11, 90}
  {
  }

  lemma SampleRearranged()
    ensures multiset{64, 34, 25, 12, 22, 11, 90} == multiset{11, 12, 22, 25, 34, 64, 90}
  {
  }

  lemma SampleOutput()
    ensures multiset([11, 12, 22, 25, 34, 64, 90]) == multiset{11, 12, 22, 25, 34, 64, 90}
  {
  }

  lemma SampleSorted()
    ensures Sorted([11, 12, 22, 25, 34, 64, 90])
  {
  }
}
