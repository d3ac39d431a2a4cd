# Tutorial algorithms, modelled and verified in Dafny

The repository holds ten self-contained tutorial implementations of
classic integer and discrete algorithms, each in one Python file:

- three graph searches over an adjacency dictionary: Dijkstra's
  shortest distances, breadth-first order and iterative depth-first order;
- two dynamic programmes: the 0/1 knapsack table and Fibonacci numbers;
- four list algorithms: binary search, bubble sort, merge sort and quick sort;
- the recursive Towers of Hanoi.

Each Python file has a Dafny module named after it, and the Dafny code
takes the form of the Python code:

- Loops that update variables are `method`s with `while` or `for` loops and
  invariants.
- The in-place sorts and the knapsack table work on `array`s.
- Hanoi's recursion is a function returning the printed moves.

Each method is proved against a specification stated independently of its
loop:

- a sorted permutation for the sorts;
- the recursive definition of F(n) for Fibonacci;
- the recurrence table and optimality over all choices of items for knapsack;
- shortest path weights for Dijkstra;
- for the two traversals, breadth-first or depth-first order as a function
  of the nodes visited so far (`BfsNext`, `DfsNext`), plus reachability and
  completeness.

The `__main__` demonstrations become `...Sample` members whose contracts fix
the outputs the tutorials print.

Shared modules:

- `Wrappers`: `Option`.
- `Graphs`: nodes as strings, adjacency dictionaries as maps, walks,
  reachability, and the `Result` datatype whose `KeyError` case models the
  `KeyError` that `graph[node]` raises for a node that is not a key.
- `SortedSeqs`: sortedness, and uniqueness of a sorted permutation.

Two of the files do not parse as shipped, because a module-level
triple-quoted string is closed by the quotes meant to open a docstring:

- `BinarySearch.py`: the string opened at line 1 closes at line 43. The
  `def` line (42) sits inside it, the docstring text from line 44 on is
  indented at module level, and the quotes at line 52 open a string that is
  never closed. `BinarySearch` models the function text (lines 42-76) as
  written.
- `Depth_First.py`: the string opened at line 1 closes at line 52, the
  opening of `dfs_recursive`'s docstring. Lines 53-61 are indented text at
  module level, and lines 62-91 form a second string that holds the rest of
  `dfs_recursive` and its demonstration. `DepthFirst` models the text of
  `dfs_iterative` (lines 97-126) as written.

The expected output written out in `BinarySearch.py` (lines 30-36) lists the
probes 4, 7 and 6 for the demonstration. The code probes 4, 7, 5 and 6:
after index 7 the window is 5..6, and `(5 + 6) // 2` is 5.
`BinarySearch.BinarySearchSample` states the order the code follows.

## Model

| member | source | states |
|---|---|---|
| Dijkstra.Dijkstra | Dijkstra.py:53-88 | on success the keys of the result are exactly the keys of `graph`, `start` is at 0, and every vertex's distance is its shortest path weight from `start` (infinity exactly when no path reaches it); a `KeyError` names a vertex reachable from `start` that is not a key; the call succeeds exactly when every reachable vertex is a key |
| Dijkstra.Relax | Dijkstra.py:80-86 | the inner `for` loop computes `RelaxFrom` of the distances and heap it starts from, including the `KeyError` of a neighbour with no recorded distance |
| Dijkstra.Step | Dijkstra.py:81-86 | one pair: when `d + w` beats the recorded distance, that distance becomes `d + w` and exactly the entry `(d + w, b)` is pushed; otherwise nothing changes; the keys never change |
| Dijkstra.RelaxFrom | Dijkstra.py:80-86 | relaxation fails exactly when some listed neighbour has no recorded distance, and then names such a neighbour |
| Dijkstra.RelaxFromRelaxed | Dijkstra.py:80-86 | a successful relaxation keeps the keys, never raises a distance, leaves every listed pair's target within `d` plus its weight, and changes a distance only by lowering it to `d` plus a listed weight with one matching push; every pushed entry is for a lowered vertex, at its new distance |
| Dijkstra.Init | Dijkstra.py:64-69 | the loop invariant holds for all-infinite distances with `start` at 0 and the heap `[(0, start)]` |
| Dijkstra.LeastExists | Dijkstra.py:71-73 | a non-empty heap has an entry of least distance to pop |
| Dijkstra.DropStale | Dijkstra.py:75-77 | popping an entry above its vertex's recorded distance and skipping it keeps the invariant |
| Dijkstra.PoppedFresh | Dijkstra.py:73-77 | an entry that is not skipped belongs to a vertex whose neighbours have not been relaxed yet, so each vertex is expanded at most once |
| Dijkstra.PathBound | Dijkstra.py:71-86 | while no heap entry lies below `d`, every path from `start` ends at an expanded vertex or weighs at least `d` |
| Dijkstra.PoppedShortest | Dijkstra.py:73-77 | the distance of a popped, non-stale entry of least distance is the shortest path weight of its vertex |
| Dijkstra.LoweredFresh | Dijkstra.py:84-86 | relaxing never lowers the distance of an expanded vertex or of the vertex being expanded |
| Dijkstra.Expand | Dijkstra.py:79-86 | relaxing the list of a popped, current vertex keeps the invariant with that vertex added to the expanded ones, and keeps the keys |
| Dijkstra.ExpandSound | Dijkstra.py:83-86 | after relaxing, every finite distance is still the weight of some path and `start` stays at 0 |
| Dijkstra.ExpandAbove | Dijkstra.py:69-86 | after relaxing, no heap entry lies below its vertex's recorded distance |
| Dijkstra.ExpandCurrent | Dijkstra.py:85-86 | after relaxing, each vertex with a finite distance that is not expanded has exactly one heap entry at that distance, and expanded ones none |
| Dijkstra.ExpandDone | Dijkstra.py:80-86 | after relaxing, every pair listed for an expanded vertex, the new one included, is relaxed: its target lies within the source's distance plus the weight |
| Dijkstra.Finished | Dijkstra.py:71-88 | with the heap empty, every reachable vertex is expanded and a key, every recorded distance is the shortest, and the keys are those of `graph` |
| Dijkstra.ShortestUnique | Dijkstra.py:53-63 | the shortest distance of a vertex is unique, so the result does not depend on which of several equal entries is popped first |
| Dijkstra.DijkstraSample | Dijkstra.py:90-106 | the demonstration graph from `A` gives A = 0, B = 1, C = 3, D = 4 |
| Dijkstra.SampleResult | Dijkstra.py:39-43 | any map of shortest distances over the demonstration's vertices is A = 0, B = 1, C = 3, D = 4 |
| BreadthFirst.Bfs | BreadthFirst.py:43-71 | on success the result starts at `start`, has no repeats, holds exactly the nodes reachable from `start`, lists them in non-decreasing hop distance, and is in breadth-first order (`BfsOrder`); a `KeyError` names the first node breadth-first order reaches that is not a key (`FirstMissing`), which is reachable; success exactly when every reachable node is a key |
| BreadthFirst.MissingFront | BreadthFirst.py:60-67 | a front node that is neither visited nor a key, the one `graph[node]` fails on, is the first node breadth-first order reaches that is not a key |
| BreadthFirst.TrailsAgree | BreadthFirst.py:58-69 | two beginnings of breadth-first order from the same start agree wherever both are defined |
| BreadthFirst.MissingUnique | BreadthFirst.py:66-67 | only one node can be the first one missing, so the node a failing `bfs` names is determined |
| BreadthFirst.EnqueueUnvisited | BreadthFirst.py:66-69 | the inner loop appends the neighbours not yet visited, in list order |
| BreadthFirst.EarliestFresh | BreadthFirst.py:58-69 | the breadth-first reference order: the pick is never a visited node, and there is none exactly when every neighbour of every node from position `k` on is visited |
| BreadthFirst.EarliestAt | BreadthFirst.py:58-69 | the pick is the first fresh neighbour of the earliest visited node that still has one |
| BreadthFirst.FrontIsNext | BreadthFirst.py:58-64 | a front entry that is not yet visited is exactly the node breadth-first order picks next |
| BreadthFirst.Init | BreadthFirst.py:54-56 | the loop invariant holds for the queue `[start]` with nothing visited |
| BreadthFirst.DropVisited | BreadthFirst.py:60-62 | dequeuing a visited node keeps the invariant |
| BreadthFirst.Visit | BreadthFirst.py:60-69 | visiting the front node and enqueuing its unvisited neighbours keeps the invariant (levels, order, reachability, no repeats) |
| BreadthFirst.LevelAtMostHops | BreadthFirst.py:58-69 | a level assignment that starts at 0 and grows by at most one per edge bounds the length of every walk from `start` |
| BreadthFirst.Finished | BreadthFirst.py:58-71 | with the queue empty the result starts at `start`, has no repeats, is exactly the reachable nodes, is ordered by hop distance, and is in breadth-first order |
| BreadthFirst.FinishedOrder | BreadthFirst.py:58-71 | with the queue empty breadth-first order has nothing left to pick after the last visited node |
| BreadthFirst.BfsSample | BreadthFirst.py:73-87 | the demonstration graph from `A` gives `['A', 'B', 'C', 'D', 'E', 'F']` |
| BreadthFirst.SampleOrder | BreadthFirst.py:31-33 | breadth-first order from `A` on the demonstration graph is exactly `['A', 'B', 'C', 'D', 'E', 'F']` |
| DepthFirst.DfsIterative | Depth_First.py:97-126 | on success the result starts at `start`, has no repeats, holds exactly the nodes reachable from `start`, and is in depth-first order (`DfsOrder`); a `KeyError` names the first node depth-first order reaches that is not a key (`FirstMissing`), which is reachable; success exactly when every reachable node is a key |
| DepthFirst.MissingTop | Depth_First.py:114-121 | a top node that is neither visited nor a key, the one `reversed(graph[node])` fails on, is the first node depth-first order reaches that is not a key |
| DepthFirst.TrailsAgree | Depth_First.py:112-124 | two beginnings of depth-first order from the same start agree wherever both are defined |
| DepthFirst.MissingUnique | Depth_First.py:121 | only one node can be the first one missing, so the node a failing `dfs_iterative` names is determined |
| DepthFirst.PushUnvisited | Depth_First.py:121-124 | the inner loop over `reversed(graph[node])` pushes the neighbours not yet visited, last-listed first |
| DepthFirst.LatestFresh | Depth_First.py:112-124 | the depth-first reference order: the pick is never a visited node, and there is none exactly when every neighbour of the first `k` visited nodes is visited |
| DepthFirst.LatestAt | Depth_First.py:112-124 | the pick is the first fresh neighbour of the latest visited node that still has one |
| DepthFirst.TopIsNext | Depth_First.py:112-119 | a top entry that is not yet visited is exactly the node depth-first order picks next |
| DepthFirst.Init | Depth_First.py:108-110 | the loop invariant holds for the stack `[start]` with nothing visited |
| DepthFirst.DropVisited | Depth_First.py:114-116 | popping a visited node keeps the invariant |
| DepthFirst.Visit | Depth_First.py:114-124 | visiting the top node and pushing its unvisited neighbours in reverse keeps the invariant |
| DepthFirst.Finished | Depth_First.py:112-126 | with the stack empty the result starts at `start`, has no repeats, is exactly the reachable nodes, and is in depth-first order |
| DepthFirst.FirstFreshIsNext | Depth_First.py:122-124 | because neighbours are pushed in reverse, a visited node's first unvisited neighbour is the very next node visited |
| DepthFirst.DfsSample | Depth_First.py:128-142 | the demonstration graph from `A` gives `['A', 'B', 'D', 'E', 'F', 'C']` |
| DepthFirst.SampleOrder | Depth_First.py:36-37 | depth-first order from `A` on the demonstration graph is exactly `['A', 'B', 'D', 'E', 'F', 'C']` |
| Knapsack.Knapsack | Knapsack.py:50-77 | fails with `IndexError` (`None`) exactly when the capacity is negative (`dp[n][capacity]` does not exist) or positive with fewer weights than values (`weights[i - 1]` does not exist); otherwise the value returned is the recurrence cell for all items and the full capacity, and no items or capacity 0 gives 0 |
| Knapsack.RowsNeverDecrease | Knapsack.py:69-74 | each cell is at least the cell directly above it |
| Knapsack.Witness | Knapsack.py:67-77 | every cell's value is the total value of some choice among its first items whose total weight fits its capacity |
| Knapsack.FullWitness | Knapsack.py:19-21 | every cell of the table with column 0 filled is the value of some choice among its first items that fits its capacity, for any weights |
| Knapsack.FullTableOptimal | Knapsack.py:19-21 | for any weights, 0 included, no choice among the first items that fits the capacity is worth more than the cell of the table with column 0 filled |
| Knapsack.TablesAgree | Knapsack.py:67-74 | with every weight at least 1 the table as written and the table with column 0 filled agree everywhere |
| Knapsack.TableOptimal | Knapsack.py:67-77 | with every weight at least 1, no choice among the first items that fits the capacity is worth more than the cell; proved through `FullTableOptimal` and `TablesAgree` |
| Knapsack.ZeroWeightUndercounts | Knapsack.py:67-74 | with an item of weight 0 the table can miss the best choice: weights [0, 1], values [5, 1], capacity 1 give 5 while both items together weigh 1 and are worth 6, which the full table gives |
| Knapsack.KnapsackSample | Knapsack.py:80-91 | weights [2, 3, 4, 5], values [3, 4, 5, 6] and capacity 5 give 7 |
| Fibonacci.Fibonacci | Fibonacci.py:62-85 | for n >= 0 the result is F(n) of the recursive definition F(0) = 0, F(1) = 1, F(n) = F(n-1) + F(n-2); n = -1 and n = -2 read 1 and 0 from the end of `[0, 1]`; smaller n fail |
| Fibonacci.FibonacciSamples | Fibonacci.py:88-95 | F(10) = 55 and F(14) = 377 |
| BinarySearch.BinarySearch | BinarySearch.py:42-76 | an index returned always holds the target; on a sorted list -1 means the target does not occur; an empty list gives -1; the loop always terminates; the indices probed are `Probes`, a found index is the last of them, and there are at most as many as `len(arr)` has binary digits |
| BinarySearch.ProbeStep | BinarySearch.py:56-73 | one turn of the loop probes `(left + right) // 2` next, and a match ends the probes |
| BinarySearch.ProbesInWindow | BinarySearch.py:56-73 | every probe lies in the window, and only the last one can hold the target |
| BinarySearch.ProbesLogarithmic | BinarySearch.py:8-9 | a window of `n` entries takes at most as many probes as `n` has binary digits |
| BinarySearch.BinarySearchSample | BinarySearch.py:79-90 | 21 is found at index 6 of `[3, 6, 8, 12, 14, 18, 21, 24, 27, 30]`, after probing indices 4, 7, 5 and 6 |
| BubbleSort.BubbleSort | BubbleSort.py:31-52 | the list is sorted in place into a permutation of its old contents, and the same list is returned |
| BubbleSort.SwapStep | BubbleSort.py:44-46 | swapping an out-of-order pair carries the largest element so far one place right, keeps the settled suffix and the multiset |
| BubbleSort.KeepStep | BubbleSort.py:44 | an in-order pair carries the largest element so far one place right, and keeps the prefix sorted when no swap has happened |
| BubbleSort.PassEnd | BubbleSort.py:42-50 | after pass `i` one more position at the end is settled; after a pass without a swap every position is |
| BubbleSort.SettledSorted | BubbleSort.py:48-52 | a list settled from position 0 is sorted |
| BubbleSort.BubbleSortSample | BubbleSort.py:55-61 | `[64, 34, 25, 12, 22, 11, 90]` becomes `[11, 12, 22, 25, 34, 64, 90]` |
| MergeSort.MergeSort | MergeSort.py:38-55 | the list ends up sorted and a permutation of its old contents; lists of length 0 or 1 are unchanged |
| MergeSort.Merge | MergeSort.py:57-83 | the three loops overwrite `arr` with the merge of `left` and `right`, taking the right head on ties |
| MergeSort.MergedPermutes | MergeSort.py:57-83 | the merge holds exactly the elements of both lists |
| MergeSort.MergedSorted | MergeSort.py:57-83 | the merge of two sorted lists is sorted |
| MergeSort.MergedSortedPermutation | MergeSort.py:57-83 | the merge of two sorted lists is a sorted permutation of their union |
| MergeSort.TakeLeft | MergeSort.py:65-67 | when the left head is strictly smaller, or the right list is used up, the merge starts with the left head |
| MergeSort.TakeRight | MergeSort.py:68-70 | when the right head is not larger, or the left list is used up, the merge starts with the right head |
| MergeSort.MergeSortSample | MergeSort.py:85-92 | `[38, 27, 43, 3, 9, 82, 10]` becomes `[3, 9, 10, 27, 38, 43, 82]` |
| QuickSort.Partition | QuickSort.py:46-58 | `left` holds only elements below the pivot, `equal` only the pivot, `right` only elements above it, and together they hold exactly the elements of the input |
| QuickSort.QuickSort | QuickSort.py:37-61 | the result is sorted and a permutation of the input; lists of length 0 or 1 come back as they are; the input is a value and is never changed |
| QuickSort.QuickSortSample | QuickSort.py:63-70 | `[33, 10, 59, 27, 25, 82, 11, 9, 42]` becomes `[9, 10, 11, 25, 27, 33, 42, 59, 82]` |
| TowersOfHanoi.Hanoi | TowersofHanoi.py:46-68 | n disks take exactly 2^n - 1 moves, and the middle move takes disk n from source to target (for n = 1 the only move) |
| TowersOfHanoi.HanoiSolves | TowersofHanoi.py:56-68 | from any position with disks 1..n on top of source and only larger disks elsewhere, every move takes a top disk onto an empty peg or a larger disk, and the n disks end on target with everything else in place |
| TowersOfHanoi.StepOne | TowersofHanoi.py:61-62 | the first recursive call legally moves the n - 1 smaller disks onto the auxiliary peg |
| TowersOfHanoi.StepThree | TowersofHanoi.py:64-68 | after disk n moves, the second recursive call legally moves the n - 1 smaller disks onto target, completing the tower |
| TowersOfHanoi.SolvesPuzzle | TowersofHanoi.py:46-68 | from a full tower on source and two empty pegs, every move is legal and all n disks end on target with the other pegs empty |
| TowersOfHanoi.ThreeDisks | TowersofHanoi.py:28-38 | three disks give A→C, A→B, C→B, A→C, B→A, B→C, A→C |

## Left out

- The other files of the repository (A* pathfinding, Fourier transform, Gaussian elimination, genetic algorithm, k-means, linear regression, the Monte Carlo simulations, principal component analysis, ray tracing, simulated annealing) are not part of this model: they work on floats, randomness or numerical libraries.
- All `print` calls. BinarySearch's progress prints report the indices that `Probes` records.
- `dfs_recursive` (Depth_First.py:51-72) is not modelled. Its docstring quotes close the module string, and its body lies in a second string literal (lines 62-91), so it is not code.
- Values are Dafny's unbounded integers, like Python's, so there is no wrap-around to model. Lists of anything other than integers are not modelled.
- Dijkstra.Dijkstra: weights are natural numbers. Float weights and negative weights (the algorithm's premise excludes them) are not modelled, and `float('infinity')` is the `Infinity` case of `Dist`.
- Dijkstra.Dijkstra: the heap is a multiset from which any entry of least distance is popped. `heapq`'s array layout and its tie order (by vertex name) are not modelled. Shortest distances are unique (`ShortestUnique`), so this changes no successful result. When a lookup fails, the contract names some reachable vertex that is not a key, not the one `heapq`'s order would hit first.
- Knapsack.TableOptimal: requires every weight to be at least 1. Column 0 is never filled, so items of weight 0 break optimality (`ZeroWeightUndercounts`, and see Findings).
- Knapsack.Knapsack: weights are natural numbers; negative weights are not modelled. Both `IndexError` cases are one `None`, and the rows Python fills before failing on a missing weight are not modelled.
- MergeSort.Merge: requires `len(arr) == len(left) + len(right)`, which every call from `merge_sort` meets. Other lengths are not modelled.
- TowersOfHanoi.Hanoi: requires n >= 1. For n = 0 the recursion never reaches its base case, and Python eventually stops it with a `RecursionError`.
- Fibonacci.Fibonacci: integer arguments only; calls with other types are not modelled.
- BubbleSort.BubbleSort and MergeSort.MergeSort: aliasing between the list and other live references is not modelled. Both sort an `array` the caller owns.

## Findings

| source | as written | input that shows it | evidently intended | confidence | as-written member | corrected member |
|---|---|---|---|---|---|---|
| Knapsack.py:67-74 | the inner loop runs over `range(1, capacity + 1)`, so column 0 of every row stays 0 | weights [0, 1], values [5, 1], capacity 1: the table gives 5, but taking both items weighs 1 and is worth 6 | each cell is the maximum value of the choices that fit (Knapsack.py:19-21, 59-61), which filling column 0 with the same recurrence gives for any weights | not executed | Knapsack.ZeroWeightUndercounts | Knapsack.FullTableOptimal |
