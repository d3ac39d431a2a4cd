/** Knapsack.py: the 0/1 knapsack problem solved bottom-up with a table
    `dp[i][w]` over the first `i` items and capacities `w`. */
module Knapsack {
  import opened Wrappers

  /** The recurrence each cell of `dp` is filled with: row 0 and column 0
      are 0; otherwise the item `i - 1` is either left out, or, when it fits,
      taken on top of the best for the capacity that remains. Column 0 reads
      no weight. */
  function Table(weights: seq<nat>, values: seq<int>, i: nat, w: nat): int
    requires i <= |values| && (w == 0 || i <= |weights|)
  {
    if i == 0 || w == 0 then 0
    else if weights[i - 1] <= w then Max(Table(weights, values, i - 1, w), Table(weights, values, i - 1, w - weights[i - 1]) + values[i - 1])
    else Table(weights, values, i - 1, w)
  }

  function Max(a: int, b: int): int
  {
    if a >= b then a else b
  }

  /** A choice of items: `taken[k]` says whether item `k` is in the knapsack. */
  type Choice = seq<bool>

  /** Total weight of the chosen items. */
  function TotalWeight(weights: seq<nat>, taken: Choice): nat
    requires |taken| <= |weights|
  {
    if taken == [] then 0
    else TotalWeight(weights, taken[..|taken| - 1]) + (if taken[|taken| - 1] then weights[|taken| - 1] else 0)
  }

  /** Total value of the chosen items. */
  function TotalValue(values: seq<int>, taken: Choice): int
    requires |taken| <= |values|
  {
    if taken == [] then 0
    else TotalValue(values, taken[..|taken| - 1]) + (if taken[|taken| - 1] then values[|taken| - 1] else 0)
  }

  /** Each cell is at least the cell directly above it: one more item never
      lowers the best value. */
  lemma RowsNeverDecrease(weights: seq<nat>, values: seq<int>, i: nat, w: nat)
    requires 0 < i <= |values| && i <= |weights|
    ensures Table(weights, values, i, w) >= Table(weights, values, i - 1, w)
  {
  }

  /** Every cell's value is achieved by some choice among the first `i` items
      whose total weight is at most `w`. Holds for any weights, including 0. */
  function Witness(weights: seq<nat>, values: seq<int>, i: nat, w: nat): (taken: Choice)
    requires i <= |values| && i <= |weights|
    ensures |taken| == i
    ensures TotalWeight(weights, taken) <= w
    ensures TotalValue(values, taken) == Table(weights, values, i, w)
  {
    if i == 0 then []
    else if w == 0 then
      var rest := Witness(weights, values, i - 1, w);
      assert (rest + [false])[..i - 1] == rest;
      rest + [false]
    else if weights[i - 1] <= w && Table(weights, values, i - 1, w - weights[i - 1]) + values[i - 1] > Table(weights, values, i - 1, w) then
      var rest := Witness(weights, values, i - 1, w - weights[i - 1]);
      assert (rest + [true])[..i - 1] == rest;
      rest + [true]
    else
      var rest := Witness(weights, values, i - 1, w);
      assert (rest + [false])[..i - 1] == rest;
      rest + [false]
  }

  /** The table with column 0 filled by the same recurrence, as it would be
      if the inner loop ran over `range(0, capacity + 1)`. */
  function FullTable(weights: seq<nat>, values: seq<int>, i: nat, w: nat): int
    requires i <= |values| && i <= |weights|
  {
    if i == 0 then 0
    else if weights[i - 1] <= w then Max(FullTable(weights, values, i - 1, w), FullTable(weights, values, i - 1, w - weights[i - 1]) + values[i - 1])
    else FullTable(weights, values, i - 1, w)
  }

  /** Every cell of the full table is achieved by some choice among the first
      `i` items that fits in capacity `w`. */
  function FullWitness(weights: seq<nat>, values: seq<int>, i: nat, w: nat): (taken: Choice)
    requires i <= |values| && i <= |weights|
    ensures |taken| == i
    ensures TotalWeight(weights, taken) <= w
    ensures TotalValue(values, taken) == FullTable(weights, values, i, w)
  {
    if i == 0 then []
    else if weights[i - 1] <= w && FullTable(weights, values, i - 1, w - weights[i - 1]) + values[i - 1] > FullTable(weights, values, i - 1, w) then
      var rest := FullWitness(weights, values, i - 1, w - weights[i - 1]);
      assert (rest + [true])[..i - 1] == rest;
      rest + [true]
    else
      var rest := FullWitness(weights, values, i - 1, w);
      assert (rest + [false])[..i - 1] == rest;
      rest + [false]
  }

  /** For any weights, 0 included, no choice among the first `i` items that
      fits in capacity `w` is worth more than `FullTable(i, w)`: together
      with `FullWitness`, each cell is the maximum over all feasible
      choices. */
  lemma {:induction false} FullTableOptimal(weights: seq<nat>, values: seq<int>, i: nat, w: nat, taken: Choice)
    requires i <= |values| && i <= |weights|
    requires |taken| == i && TotalWeight(weights, taken) <= w
    ensures TotalValue(values, taken) <= FullTable(weights, values, i, w)
  {
    if i > 0 {
      var rest := taken[..i - 1];
      FullTableOptimal(weights, values, i - 1, w, rest);
      if taken[i - 1] {
        FullTableOptimal(weights, values, i - 1, w - weights[i - 1], rest);
      }
    }
  }

  /** With every weight at least 1 the two tables agree: no item fits at
      capacity 0, so column 0 is 0 either way. */
  lemma {:induction false} TablesAgree(weights: seq<nat>, values: seq<int>, i: nat, w: nat)
    requires i <= |values| && i <= |weights|
    requires forall k :: 0 <= k < i ==> weights[k] >= 1
    ensures Table(weights, values, i, w) == FullTable(weights, values, i, w)
  {
    if i > 0 {
      TablesAgree(weights, values, i - 1, w);
      if weights[i - 1] <= w {
        TablesAgree(weights, values, i - 1, w - weights[i - 1]);
      }
    }
  }

  /** With every weight at least 1, no choice among the first `i` items that
      fits in capacity `w` is worth more than `Table(i, w)`: together with
      `Witness`, the cell is the maximum over all feasible choices. */
  lemma TableOptimal(weights: seq<nat>, values: seq<int>, i: nat, w: nat, taken: Choice)
    requires i <= |values| && i <= |weights|
    requires forall k :: 0 <= k < i ==> weights[k] >= 1
    requires |taken| == i && TotalWeight(weights, taken) <= w
    ensures TotalValue(values, taken) <= Table(weights, values, i, w)
  {
    FullTableOptimal(weights, values, i, w, taken);
    TablesAgree(weights, values, i, w);
  }

  /** Column 0 is never filled, so an item of weight 0 is not counted at
      capacity 0 nor when taking an item empties the remaining capacity:
      for weights [0, 1], values [5, 1] and capacity 1 the table gives 5,
      while taking both items weighs 1 and is worth 6, which the full table
      finds. */
  lemma ZeroWeightUndercounts()
    ensures Table([0, 1], [5, 1], 2, 1) == 5
    ensures TotalWeight([0, 1], [true, true]) == 1 && TotalValue([5, 1], [true, true]) == 6
    ensures FullTable([0, 1], [5, 1], 2, 1) == 6
  {
    assert [true, true][..1] == [true];
    assert [true][..0] == [];
  }

  /** `knapsack(weights, values, capacity)`: `n = len(values)` items; the
      table starts as all zeros and rows 1..n, columns 1..capacity are filled
      row by row with the recurrence. Python raises `IndexError` (`None`)
      when the capacity is negative, since every row is then empty and
      `dp[n][capacity]` does not exist, and when a column is filled for an
      item that has no weight, which happens exactly when the capacity is
      positive and there are fewer weights than values. */
  method Knapsack(weights: seq<nat>, values: seq<int>, capacity: int) returns (best: Option<int>)
    ensures best.None? <==> capacity < 0 || (capacity > 0 && |weights| < |values|)
    ensures best.Some? ==> best.value == Table(weights, values, |values|, capacity)
    ensures capacity >= 0 && (|values| == 0 || capacity == 0) ==> best == Some(0)
  {
    if capacity < 0 || (capacity > 0 && |weights| < |values|) {
      return None;
    }
    var n := |values|;
    var dp := new int[n + 1, capacity + 1]((_, _) => 0);
    for i := 1 to n + 1
      invariant forall r, c :: 0 <= r < i && 0 <= c <= capacity ==> dp[r, c] == Table(weights, values, r, c)
      invariant forall r :: i <= r <= n ==> dp[r, 0] == 0
    {
      for w := 1 to capacity + 1
        invariant forall r, c :: 0 <= r < i && 0 <= c <= capacity ==> dp[r, c] == Table(weights, values, r, c)
        invariant forall r :: i <= r <= n ==> dp[r, 0] == 0
        invariant forall c :: 0 <= c < w ==> dp[i, c] == Table(weights, values, i, c)
      {
        if weights[i - 1] <= w {
          dp[i, w] := Max(dp[i - 1, w], dp[i - 1, w - weights[i - 1]] + values[i - 1]);
        } else {
          dp[i, w] := dp[i - 1, w];
        }
      }
    }
    best := Some(dp[n, capacity]);
  }

  /** The demonstration's items. */
  method KnapsackSample() returns (best: Option<int>)
    ensures best == Some(7)
  {
    best := Knapsack([2, 3, 4, 5], [3, 4, 5, 6], 5);
    SampleTable();
  }

  lemma SampleTable()
    ensures Table([2, 3, 4, 5], [3, 4, 5, 6], 4, 5) == 7
  {
    var ws, vs := [2, 3, 4, 5], [3, 4, 5, 6];
    assert Table(ws, vs, 1, 0) == 0 && Table(ws, vs, 1, 1) == 0 && Table(ws, vs, 1, 2) == 3 && Table(ws, vs, 1, 3) == 3 && Table(ws, vs, 1, 5) == 3;
    assert Table(ws, vs, 2, 0) == 0 && Table(ws, vs, 2, 1) == 0 && Table(ws, vs, 2, 2) == 3 && Table(ws, vs, 2, 5) == 7;
    assert Table(ws, vs, 3, 1) == 0 && Table(ws, vs, 3, 5) == 7;
  }
}
