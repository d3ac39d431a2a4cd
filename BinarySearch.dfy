/** BinarySearch.py: binary search over a list that the caller keeps sorted.
    As shipped, the file does not parse. The module string opened at its
    first line is closed by the quotes meant to open the function's
    docstring (line 43), so the `def` line sits inside that string. The
    docstring's text that follows (line 44 on) is indented at module level,
    and the quotes meant to close the docstring (line 52) open a string
    that is never closed. This module models the function text (lines
    42-76) as written. Its progress prints are not modelled; the indices
    they report are `Probes`. */
module BinarySearch {
  import opened SortedSeqs

  /** The `mid` indices the loop probes, in order, starting from the window
      `left..right`: it stops at a match or when the window is empty, and
      otherwise goes on in the half that can still hold the target. */
  ghost function Probes(arr: seq<int>, target: int, left: int, right: int): seq<int>
    requires 0 <= left <= right + 1 <= |arr|
    decreases right - left
  {
    if left > right then []
    else
      var mid := (left + right) / 2;
      if arr[mid] == target then [mid]
      else if arr[mid] > target then [mid] + Probes(arr, target, left, mid - 1)
      else [mid] + Probes(arr, target, mid + 1, right)
  }

  /** Every probe lies in the window, and only the last one can hold the
      target. */
  lemma {:induction false} ProbesInWindow(arr: seq<int>, target: int, left: int, right: int)
    requires 0 <= left <= right + 1 <= |arr|
    ensures forall k :: 0 <= k < |Probes(arr, target, left, right)| ==> left <= Probes(arr, target, left, right)[k] <= right
    ensures forall k :: 0 <= k < |Probes(arr, target, left, right)| - 1 ==> arr[Probes(arr, target, left, right)[k]] != target
    decreases right - left
  {
    if left <= right {
      var mid := (left + right) / 2;
      var ps := Probes(arr, target, left, right);
      if arr[mid] != target {
        var l, r := if arr[mid] > target then left else mid + 1, if arr[mid] > target then mid - 1 else right;
        var rest := Probes(arr, target, l, r);
        ProbesInWindow(arr, target, l, r);
        assert ps == [mid] + rest;
        forall k | 1 <= k < |ps|
          ensures left <= ps[k] <= right && (k < |ps| - 1 ==> arr[ps[k]] != target)
        {
          assert ps[k] == rest[k - 1];
        }
      }
    }
  }

  /** The number of binary digits of `n`. */
  function Bits(n: nat): nat
  {
    if n == 0 then 0 else 1 + Bits(n / 2)
  }

  lemma {:induction false} BitsMonotonic(m: nat, n: nat)
    requires m <= n
    ensures Bits(m) <= Bits(n)
  {
    if m > 0 {
      BitsMonotonic(m / 2, n / 2);
    }
  }

  /** Each probe at least halves the window, so a window of `n` entries
      takes at most as many probes as `n` has binary digits: the
      logarithmic running time the search is known for. */
  lemma {:induction false} ProbesLogarithmic(arr: seq<int>, target: int, left: int, right: int)
    requires 0 <= left <= right + 1 <= |arr|
    ensures |Probes(arr, target, left, right)| <= Bits(right - left + 1)
    decreases right - left
  {
    var n := right - left + 1;
    if left > right {
      assert Probes(arr, target, left, right) == [];
    } else if arr[(left + right) / 2] == target {
      assert Probes(arr, target, left, right) == [(left + right) / 2];
      assert Bits(n) == 1 + Bits(n / 2);
    } else {
      var mid := (left + right) / 2;
      var l, r := if arr[mid] > target then left else mid + 1, if arr[mid] > target then mid - 1 else right;
      OneMore(arr, target, left, right, l, r);
      ProbesLogarithmic(arr, target, l, r);
      Halved(left, right, l, r);
      var below := |Probes(arr, target, l, r)|;
      assert below <= Bits(r - l + 1);
      assert |Probes(arr, target, left, right)| == 1 + below;
      assert 1 + Bits(r - l + 1) <= Bits(n);
    }
  }

  /** A probe that misses is followed by the probes of the half it keeps. */
  lemma OneMore(arr: seq<int>, target: int, left: int, right: int, l: int, r: int)
    requires 0 <= left <= right < |arr|
    requires arr[(left + right) / 2] > target ==> l == left && r == (left + right) / 2 - 1
    requires arr[(left + right) / 2] < target ==> l == (left + right) / 2 + 1 && r == right
    requires arr[(left + right) / 2] != target
    ensures 0 <= l <= r + 1 <= |arr|
    ensures |Probes(arr, target, left, right)| == 1 + |Probes(arr, target, l, r)|
  {
  }

  /** The window that remains after a probe has at most half the entries,
      so it has one binary digit fewer. */
  lemma Halved(left: int, right: int, l: int, r: int)
    requires left <= right
    requires (l == left && r == (left + right) / 2 - 1) || (l == (left + right) / 2 + 1 && r == right)
    ensures r - l + 1 >= 0 && 1 + Bits(r - l + 1) <= Bits(right - left + 1)
  {
    var n := right - left + 1;
    assert r - l + 1 <= n / 2;
    BitsMonotonic(r - l + 1, n / 2);
  }

  /** `probes` followed by what the window `left..right` still probes is
      everything the search probes. */
  ghost predicate Traced(arr: seq<int>, target: int, probes: seq<int>, left: int, right: int)
    requires 0 <= left <= right + 1 <= |arr|
  {
    probes + Probes(arr, target, left, right) == Probes(arr, target, 0, |arr| - 1)
  }

  /** On a sorted list, every occurrence of the target lies in the window
      `left..right`. */
  ghost predicate Window(arr: seq<int>, target: int, left: int, right: int)
  {
    Sorted(arr) ==> forall k :: 0 <= k < |arr| && arr[k] == target ==> left <= k <= right
  }

  /** Moving past `mid` keeps every occurrence in the window: on a sorted
      list, an element above the target has none at or after it, and one
      below has none at or before it. */
  lemma Narrow(arr: seq<int>, target: int, left: int, right: int)
    requires 0 <= left <= right < |arr| && Window(arr, target, left, right)
    ensures var mid := (left + right) / 2;
            && (arr[mid] > target ==> Window(arr, target, left, mid - 1))
            && (arr[mid] < target ==> Window(arr, target, mid + 1, right))
  {
  }

  /** An empty window has nothing left to probe. */
  lemma Untraced(arr: seq<int>, target: int, probes: seq<int>, left: int, right: int)
    requires 0 <= left == right + 1 <= |arr| && Traced(arr, target, probes, left, right)
    ensures probes == Probes(arr, target, 0, |arr| - 1)
  {
    assert probes + [] == probes;
  }

  /** One turn of the loop keeps `Traced`, and a match ends the probes. */
  lemma ProbeStep(arr: seq<int>, target: int, probes: seq<int>, left: int, right: int)
    requires 0 <= left <= right < |arr|
    requires Traced(arr, target, probes, left, right)
    ensures var mid := (left + right) / 2;
            && (arr[mid] == target ==> probes + [mid] == Probes(arr, target, 0, |arr| - 1))
            && (arr[mid] > target ==> Traced(arr, target, probes + [mid], left, mid - 1))
            && (arr[mid] < target ==> Traced(arr, target, probes + [mid], mid + 1, right))
  {
    var mid := (left + right) / 2;
    if arr[mid] == target {
      assert Probes(arr, target, left, right) == [mid];
    } else {
      var l, r := if arr[mid] > target then left else mid + 1, if arr[mid] > target then mid - 1 else right;
      var rest := Probes(arr, target, l, r);
      assert Probes(arr, target, left, right) == [mid] + rest;
      assert probes + [mid] + rest == probes + ([mid] + rest);
    }
  }

  /** `binary_search(arr, target)`: the `left`/`right` window shrinks around
      `mid = (left + right) // 2` until the target is found or the window is
      empty. A found index is always a real occurrence; on a sorted list, -1
      means the target does not occur. Nothing is required of the list: on an
      unsorted one the search still terminates and any index it returns is
      still an occurrence. `probes` records the indices probed, in order; there
      are at most as many as `len(arr)` has binary digits. */
  method BinarySearch(arr: seq<int>, target: int) returns (r: int, ghost probes: seq<int>)
    ensures r == -1 || (0 <= r < |arr| && arr[r] == target)
    ensures Sorted(arr) && r == -1 ==> target !in arr
    ensures arr == [] ==> r == -1
    ensures probes == Probes(arr, target, 0, |arr| - 1)
    ensures r != -1 ==> probes != [] && r == probes[|probes| - 1]
    ensures |probes| <= Bits(|arr|)
  {
    ProbesLogarithmic(arr, target, 0, |arr| - 1);
    assert |Probes(arr, target, 0, |arr| - 1)| <= Bits(|arr|);
    var left, right := 0, |arr| - 1;
    probes := [];
    assert Traced(arr, target, probes, left, right);
    while left <= right
      invariant 0 <= left <= right + 1 <= |arr|
      invariant Window(arr, target, left, right)
      invariant Traced(arr, target, probes, left, right)
      decreases right - left
    {
      var mid := (left + right) / 2;
      ProbeStep(arr, target, probes, left, right);
      Narrow(arr, target, left, right);
      probes := probes + [mid];
      if arr[mid] == target {
        return mid, probes;
      } else if arr[mid] > target {
        right := mid - 1;
      } else {
        left := mid + 1;
      }
    }
    Untraced(arr, target, probes, left, right);
    return -1, probes;
  }

  /** The demonstration: 21 is found at index 6 of the sample list, after
      probing indices 4, 7, 5 and 6. */
  method BinarySearchSample() returns (r: int, ghost probes: seq<int>)
    ensures r == 6
    ensures probes == [4, 7, 5, 6]
  {
    var arr := [3, 6, 8, 12, 14, 18, 21, 24, 27, 30];
    r, probes := BinarySearch(arr, 21);
    assert arr[6] == 21;
    assert Sorted(arr);
    assert Probes(arr, 21, 6, 6) == [6];
    assert Probes(arr, 21, 5, 6) == [5, 6];
    assert Probes(arr, 21, 5, 9) == [7, 5, 6];
  }
}
